/**
  The whole program: reads the files, compares them, and recovers the lines of what it has found.
 */
module Pipeline {
  import opened Tokens
  import opened Language
  import opened Corpora
  import opened GrowableArrays
  import opened LinkedLists
  import opened TextReading
  import opened LineRecovery
  import opened FirstPass
  import opened Comparison
  import opened RunTree
  import Percentages

  /** A run lies within two texts. */
  ghost predicate Fits(texts: seq<TextEntry>, r: Run) {
    && r.text0 < |texts| && r.text1 < |texts| && r.size > 0
    && texts[r.text0].start <= r.pos0 && r.pos0 - texts[r.text0].start + r.size <= Count(texts[r.text0].stream)
    && texts[r.text1].start <= r.pos1 && r.pos1 - texts[r.text1].start + r.size <= Count(texts[r.text1].stream)
  }

  /** A run as it is kept: with a chunk in each of its texts. */
  datatype Found = Found(chunk0: Chunk, chunk1: Chunk, size: nat)

  ghost predicate Describes(texts: seq<TextEntry>, r: Run, f: Found)
    requires Fits(texts, r)
    reads texts, f.chunk0, f.chunk0.text, f.chunk0.first`item, f.chunk0.last`item
    reads f.chunk1, f.chunk1.text, f.chunk1.first`item, f.chunk1.last`item
  {
    && f.chunk0.text == texts[r.text0] && f.chunk0.Covers(r.pos0 - texts[r.text0].start, r.size)
    && f.chunk1.text == texts[r.text1] && f.chunk1.Covers(r.pos1 - texts[r.text1].start, r.size)
    && f.size == r.size
  }

  method Add(texts: seq<TextEntry>, r: Run, ghost links: set<Link<Position>>)
    returns (f: Found, ghost more: set<Link<Position>>)
    requires ValidTexts(texts, links) && Fits(texts, r)
    modifies texts`positions, texts`chain
    ensures ValidTexts(texts, more) && links <= more && fresh(more - links)
    ensures Describes(texts, r, f)
    ensures forall k, x :: 0 <= k < |texts| && x in old(texts[k].chain) ==> x in texts[k].chain
  {
    hide Count, Chain;
    var c0, c1 := AddRun(texts[r.text0], r.pos0, texts[r.text1], r.pos1, r.size);
    f, more := Found(c0, c1, r.size), links + FourEnds(c0, c1);
  }

  /** Adds all runs. */
  method AddAll(texts: seq<TextEntry>, runs: seq<Run>) returns (found: seq<Found>, ghost links: set<Link<Position>>)
    requires ValidTexts(texts, {}) && forall j :: 0 <= j < |runs| ==> Fits(texts, runs[j])
    modifies texts`positions, texts`chain
    ensures ValidTexts(texts, links) && fresh(links) && |found| == |runs|
    ensures forall j :: 0 <= j < |runs| ==> Describes(texts, runs[j], found[j])
  {
    hide ValidTexts, Fits;
    found, links := [], {};
    for i := 0 to |runs|
      invariant ValidTexts(texts, links) && fresh(links) && |found| == i
      invariant forall j :: 0 <= j < i ==> Describes(texts, runs[j], found[j])
    {
      var f;
      f, links := Add(texts, runs[i], links);
      found := found + [f];
    }
  }

  // ---------- The lines of a run ----------

  /** The line numbers that are shown for a run. */
  datatype Lines = Lines(first0: nat, last0: nat, first1: nat, last1: nat)

  /** The line number for the first or last token of a chunk in a file. */
  ghost function LineIn(s: seq<Token>, cached: bool, readable: bool, isLast: bool, token: nat): nat {
    if (cached || readable) && token < Count(s) then LineFor(s, cached, Position(isLast, token, NOT_SET)) else NOT_SET
  }

  /** The lines for `size` tokens from `i0` in one file, and from `i1` in another. */
  ghost function LinesIn(s0: seq<Token>, readable0: bool, i0: nat, s1: seq<Token>, readable1: bool, i1: nat, size: nat,
                         cached: bool): Lines
    requires size > 0
  {
    Lines(LineIn(s0, cached, readable0, false, i0), LineIn(s0, cached, readable0, true, i0 + size - 1),
          LineIn(s1, cached, readable1, false, i1), LineIn(s1, cached, readable1, true, i1 + size - 1))
  }

  ghost function LinesOf(files: seq<Argument>, texts: seq<Text>, cached: bool, readable: seq<bool>, r: Run): Lines
    requires |readable| == |files| && InFiles(files, texts, r)
  {
    LinesIn(files[r.text0].Stream(), readable[r.text0], r.pos0 - texts[r.text0].start,
            files[r.text1].Stream(), readable[r.text1], r.pos1 - texts[r.text1].start, r.size, cached)
  }

  /** Part of a run: `size` tokens from `pos` lie in file `k`. */
  ghost predicate InFile(files: seq<Argument>, texts: seq<Text>, k: nat, pos: nat, size: nat) {
    && k < |files| && k < |texts| && size > 0
    && texts[k].start <= pos && pos - texts[k].start + size <= Count(files[k].Stream())
  }

  ghost predicate InFiles(files: seq<Argument>, texts: seq<Text>, r: Run) {
    InFile(files, texts, r.text0, r.pos0, r.size) && InFile(files, texts, r.text1, r.pos1, r.size)
  }

  lemma StretchInFile(files: seq<Argument>, minRun: nat, lang: Language, k: nat, pos: nat, size: nat)
    requires minRun >= 1 && k < |files| && size > 0
    requires var c := CorpusOf(files, minRun, lang); c.In(k, pos) && pos + size <= c.texts[k].limit
    ensures InFile(files, CorpusOf(files, minRun, lang).texts, k, pos, size)
  {
    TextHoldsFile(files, minRun, lang, k);
    var c := CorpusOf(files, minRun, lang);
    assert |c.tokens[c.texts[k].start..c.texts[k].limit]| == |PlainTokens(files[k].Stream())|;
  }

  /** What is reported lies in the files it was found in. */
  lemma ReportedInFiles(files: seq<Argument>, minRun: nat, lang: Language, o: Options, r: Run)
    requires minRun >= 1
    requires var c := CorpusOf(files, minRun, lang); c.Valid() && r in AllRuns(c, o, c.newTexts)
    ensures InFiles(files, CorpusOf(files, minRun, lang).texts, r)
  {
    var c := CorpusOf(files, minRun, lang);
    AllRunsAdmissible(c, o, c.newTexts);
    assert Admissible(c, o, r);
    var lo: nat, hi: nat :| Genuine(c, r.text0, lo, hi, r);
    StretchInFile(files, minRun, lang, r.text0, r.pos0, r.size);
    StretchInFile(files, minRun, lang, r.text1, r.pos1, r.size);
  }

  /** For each chunk the line of its first token, and the one behind that of its last token. */
  ghost function TokenLines(files: seq<Argument>, texts: seq<Text>, r: Run): Lines
    requires InFiles(files, texts, r)
  {
    var s0, i0 := files[r.text0].Stream(), r.pos0 - texts[r.text0].start;
    var s1, i1 := files[r.text1].Stream(), r.pos1 - texts[r.text1].start;
    Lines(LineOf(s0, i0), LineOf(s0, i0 + r.size - 1) + 1, LineOf(s1, i1), LineOf(s1, i1 + r.size - 1) + 1)
  }

  /** With the cache those are the lines, whether the files can still be read or not. */
  lemma CachedLines(files: seq<Argument>, texts: seq<Text>, readable: seq<bool>, r: Run)
    requires InFiles(files, texts, r) && |readable| == |files|
    ensures LinesOf(files, texts, true, readable, r) == TokenLines(files, texts, r)
  {
  }

  // ---------- The whole program ----------

  /** The comparison works on what the first pass has left in the token array. */
  method MakeCorpus(tokens: Growable<Token>, segments: seq<Segment>, newTexts: nat, minRun: nat, lang: Language,
                    ghost files: seq<Argument>)
    returns (c: Corpus)
    requires tokens.Valid() && tokens.Contents() == AllTokens(files, |files|) && newTexts == NewTexts(files, |files|)
    requires |segments| == |files| && forall k :: 0 <= k < |segments| ==>
      segments[k].start == |AllTokens(files, k)| && segments[k].limit == |AllTokens(files, k + 1)|
    ensures c == CorpusOf(files, minRun, lang)
  {
    hide AllTokens, TextsOf;
    var texts := [];
    for n := 0 to |segments|
      invariant |texts| == n && forall k :: 0 <= k < n ==> texts[k] == TextsOf(files, |files|)[k]
    {
      TextsOfAt(files, n, |files|);
      texts := texts + [Text(segments[n].start, segments[n].limit)];
    }
    c := Corpus(tokens.data[..tokens.free], texts, newTexts, minRun, lang);
  }

  ghost function LinesFound(texts: seq<TextEntry>, readable: seq<bool>, cached: bool, r: Run): Lines
    requires Fits(texts, r) && |readable| == |texts|
  {
    LinesIn(texts[r.text0].stream, readable[r.text0], r.pos0 - texts[r.text0].start,
            texts[r.text1].stream, readable[r.text1], r.pos1 - texts[r.text1].start, r.size, cached)
  }

  /** The second pass gives all runs their lines. */
  method Retrieve(r: Reader, texts: seq<TextEntry>, readable: seq<bool>, ghost runs: seq<Run>, found: seq<Found>,
                  ghost links: set<Link<Position>>)
    returns (lines: seq<Lines>)
    requires |readable| == |texts| && ValidTexts(texts, links) && AllCached(r, texts)
    requires |found| == |runs| &&
             forall j :: 0 <= j < |runs| ==> Fits(texts, runs[j]) && Describes(texts, runs[j], found[j])
    modifies r`bufferNext, r`bufferLimit, r`lastTokenCount, r`lastLineCount, r`lexLineCount, r`lexTokenCount,
             r`lexToken, r`stream, r`at
    modifies texts`positions, texts`chain, links
    ensures |lines| == |runs|
    ensures forall j :: 0 <= j < |runs| ==> lines[j] == LinesFound(texts, readable, r.buffer != null, runs[j])
  {
    hide ValidTexts, AllCached, Count, LineFor;
    RetrieveRuns(r, texts, readable, links);
    lines := [];
    for i := 0 to |found|
      invariant |lines| == i
      invariant forall j :: 0 <= j < i ==> lines[j] == LinesFound(texts, readable, r.buffer != null, runs[j])
    {
      var f := found[i];
      lines := lines + [Lines(f.chunk0.first.item.line, f.chunk0.last.item.line,
                              f.chunk1.first.item.line, f.chunk1.last.item.line)];
    }
  }

  /** The text descriptors are those of the files. */
  ghost predicate OfFiles(texts: seq<TextEntry>, files: seq<Argument>) {
    |texts| == |files| && forall k :: 0 <= k < |texts| ==>
      texts[k].stream == files[k].Stream() && texts[k].start == |AllTokens(files, k)|
  }

  lemma SameText(files: seq<Argument>, texts: seq<TextEntry>, k: nat)
    requires OfFiles(texts, files) && k < |files|
    ensures texts[k].stream == files[k].Stream() && texts[k].start == TextsOf(files, |files|)[k].start
  {
    TextsOfAt(files, k, |files|);
  }

  lemma SameLines(files: seq<Argument>, readable: seq<bool>, texts: seq<TextEntry>, r: Run, cached: bool)
    requires OfFiles(texts, files) && |readable| == |files| && InFiles(files, TextsOf(files, |files|), r)
    ensures Fits(texts, r)
    ensures LinesFound(texts, readable, cached, r) == LinesOf(files, TextsOf(files, |files|), cached, readable, r)
  {
    SameText(files, texts, r.text0);
    SameText(files, texts, r.text1);
    hide OfFiles, TextsOf, Count, LinesIn;
  }

  lemma ReportedFits(files: seq<Argument>, c: Corpus, minRun: nat, lang: Language, o: Options, readable: seq<bool>,
                     texts: seq<TextEntry>, r: Run, cached: bool)
    requires minRun >= 1 && c == CorpusOf(files, minRun, lang) && c.Valid() && r in AllRuns(c, o, c.newTexts)
    requires OfFiles(texts, files) && |readable| == |files|
    ensures Fits(texts, r) && InFiles(files, c.texts, r)
    ensures LinesFound(texts, readable, cached, r) == LinesOf(files, c.texts, cached, readable, r)
  {
    hide InFiles, Fits, LinesFound, LinesOf, AllRuns, Corpus.Valid;
    ReportedInFiles(files, minRun, lang, o, r);
    SameLines(files, readable, texts, r, cached);
  }

  /** Recovers the lines of the runs of a comparison. */
  method Locate(r: Reader, files: seq<Argument>, segments: seq<Segment>, readable: seq<bool>, runs: seq<Run>,
                ghost c: Corpus, ghost minRun: nat, ghost lang: Language, ghost o: Options)
    returns (lines: seq<Lines>)
    requires |segments| == |files| == |readable| && Recorded(r, files, segments)
    requires minRun >= 1 && c == CorpusOf(files, minRun, lang) && c.Valid() && runs == AllRuns(c, o, c.newTexts)
    modifies r`bufferNext, r`bufferLimit, r`lastTokenCount, r`lastLineCount, r`lexLineCount, r`lexTokenCount,
             r`lexToken,
             r`stream, r`at
    ensures |lines| == |runs|
    ensures forall j :: 0 <= j < |runs| ==>
      InFiles(files, c.texts, runs[j]) && lines[j] == LinesOf(files, c.texts, r.buffer != null, readable, runs[j])
  {
    hide Recorded, CorpusOf, ValidTexts, AllCached, Fits, InFiles, AllRuns, AllTokens, LinesFound, LinesOf;
    hide Corpus.Valid;
    var texts := DescribeTexts(r, files, segments);
    forall j | 0 <= j < |runs|
      ensures Fits(texts, runs[j])
    {
      ReportedFits(files, c, minRun, lang, o, readable, texts, runs[j], false);
    }
    var found;
    ghost var links;
    found, links := AddAll(texts, runs);
    lines := Retrieve(r, texts, readable, runs, found, links);
    forall j | 0 <= j < |runs|
      ensures InFiles(files, c.texts, runs[j])
      ensures lines[j] == LinesOf(files, c.texts, r.buffer != null, readable, runs[j])
    {
      ReportedFits(files, c, minRun, lang, o, readable, texts, runs[j], r.buffer != null);
    }
  }

  /** Reads the files, and finds the runs in them. Fails only if there is no memory for the tokens. */
  method ReadAndCompare(files: seq<Argument>, minRun: nat, lang: Language, o: Options, tableSize: nat, memory: bool,
                        cacheMemory: bool)
    returns (ok: bool, r: Reader, segments: seq<Segment>, c: Corpus, runs: seq<Run>)
    requires minRun >= 1 && tableSize >= 1
    ensures memory ==> ok
    ensures ok ==> c == CorpusOf(files, minRun, lang) && c.Valid() && runs == AllRuns(c, o, c.newTexts)
    ensures ok ==> fresh(r.Repr()) && |segments| == |files| && Recorded(r, files, segments)
    ensures ok ==> Survives(memory, cacheMemory, r.buffer != null, AllShort(files, |files|))
  {
    hide AllTokens, AllRuns, AllShort, Survives, Input, CorpusOf, Corpus.Valid, SegmentsCached;
    var tokens, newTexts;
    ok, r, tokens, segments, newTexts := ReadInputFiles(files, memory, cacheMemory);
    c, runs := Corpus([], [], 0, 0, Plain), [];
    if ok {
      InputIsValid(r, tokens);
      c := MakeCorpus(tokens, segments, newTexts, minRun, lang, files);
      CorpusIsValid(files, minRun, lang);
      runs := FindRuns(c, o, tableSize);
    }
  }

  lemma InputIsValid(r: Reader, tokens: Growable<Token>)
    requires Input(r, tokens)
    ensures tokens.Valid()
  {
  }

  // ---------- Showing the runs ----------

  datatype Shown = Shown(run: Run, lines: Lines)

  /** What the collection gets to see of the runs. */
  function References(runs: seq<Run>): seq<Item> {
    seq(|runs|, j requires 0 <= j < |runs| => Item(runs[j].size, j))
  }

  /** The order in which those of `n` runs that are kept are shown. */
  ghost function Order(runs: seq<Run>, keep: seq<bool>): (r: seq<Item>)
    requires |keep| == |runs|
    ensures forall i :: 0 <= i < |r| ==> r[i].id < |runs| && r[i].size == runs[r[i].id].size
  {
    var r := InsertedAll(Kept(References(runs), keep, |runs|));
    OrderRefers(runs, keep, r);
    r
  }

  lemma {:induction false} KeptAreItems(items: seq<Item>, keep: seq<bool>, n: nat)
    requires n <= |items| && n <= |keep|
    ensures forall x :: x in Kept(items, keep, n) ==> x in items
  {
    if n > 0 {
      KeptAreItems(items, keep, n - 1);
    }
  }

  lemma OrderRefers(runs: seq<Run>, keep: seq<bool>, r: seq<Item>)
    requires |keep| == |runs| && r == InsertedAll(Kept(References(runs), keep, |runs|))
    ensures forall i :: 0 <= i < |r| ==> r[i].id < |runs| && r[i].size == runs[r[i].id].size
  {
    var kept := Kept(References(runs), keep, |runs|);
    InsertedAllIsStableSort(kept);
    KeptAreItems(References(runs), keep, |runs|);
    forall i | 0 <= i < |r| ensures r[i].id < |runs| && r[i].size == runs[r[i].id].size {
      assert r[i] in multiset(r);
      assert r[i] in kept;
    }
  }

  /** Without an overflow all runs are shown, the largest first, and those of one size as they were found. */
  lemma AllShown(runs: seq<Run>, keep: seq<bool>)
    requires |keep| == |runs| && false !in keep
    ensures var r := Order(runs, keep);
      && multiset(r) == multiset(References(runs)) && Sorted(r)
      && forall size: nat :: OfSize(r, size) == OfSize(References(runs), size)
  {
    assert forall i :: 0 <= i < |keep| ==> keep[i] by {
      forall i | 0 <= i < |keep| ensures keep[i] {
        assert keep[i] in keep;
      }
    }
    AllKept(References(runs), keep, |runs|);
    assert References(runs)[..|runs|] == References(runs);
    InsertedAllIsStableSort(References(runs));
  }

  /** What is shown: the runs that are kept, in their order, each with its own lines. */
  ghost predicate AreShown(files: seq<Argument>, texts: seq<Text>, readable: seq<bool>, cached: bool, runs: seq<Run>,
                           keep: seq<bool>, shown: seq<Shown>)
    requires |readable| == |files| && |keep| == |runs|
  {
    && |shown| == |Order(runs, keep)|
    && forall i :: 0 <= i < |shown| ==>
         var r := runs[Order(runs, keep)[i].id];
         InFiles(files, texts, r) && shown[i] == Shown(r, LinesOf(files, texts, cached, readable, r))
  }

  /**
    In plain sizes: what is shown are the runs with the numbers in `found`. These are the numbers of all runs
    that are kept; a larger run comes before a smaller one, and of two of one size the one that was found first.
   */
  ghost predicate InShowingOrder(runs: seq<Run>, keep: seq<bool>, found: seq<nat>, shown: seq<Shown>)
    requires |keep| == |runs|
  {
    && |shown| == |found|
    && (forall i :: 0 <= i < |found| ==> found[i] < |runs| && keep[found[i]] && shown[i].run == runs[found[i]])
    && (forall k: nat :: k < |runs| && keep[k] ==> k in found)
    && (forall i, j :: 0 <= i < j < |shown| ==>
          || shown[i].run.size > shown[j].run.size
          || (shown[i].run.size == shown[j].run.size && found[i] < found[j]))
  }

  lemma SameItems(a: seq<Item>, b: seq<Item>)
    requires multiset(a) == multiset(b)
    ensures forall x :: x in a <==> x in b
  {
    forall x ensures x in a <==> x in b {
      assert x in a <==> x in multiset(a);
      assert x in b <==> x in multiset(b);
    }
  }

  lemma {:induction false} KeptNumbers(runs: seq<Run>, keep: seq<bool>, n: nat)
    requires n <= |runs| && n <= |keep|
    ensures forall x :: x in Kept(References(runs), keep, n) ==> x.id < n && keep[x.id] && x.size == runs[x.id].size
    ensures forall k: nat :: k < n && keep[k] ==> Item(runs[k].size, k) in Kept(References(runs), keep, n)
  {
    if n > 0 {
      KeptNumbers(runs, keep, n - 1);
    }
  }

  lemma NextKept(runs: seq<Run>, keep: seq<bool>, n: nat)
    requires n < |runs| && n < |keep|
    ensures var items := Kept(References(runs), keep, n);
      Kept(References(runs), keep, n + 1) == if keep[n] then items + [Item(runs[n].size, n)] else items
  {
  }

  lemma {:induction false} KeptRanked(runs: seq<Run>, keep: seq<bool>, n: nat)
    requires n <= |runs| && n <= |keep|
    ensures Ranked(InsertedAll(Kept(References(runs), keep, n)))
  {
    hide Inserted, InsertedAll, Kept, Ranked, Sorted, LargestFirst, OfSize;
    if n > 0 {
      var items := Kept(References(runs), keep, n - 1);
      KeptRanked(runs, keep, n - 1);
      NextKept(runs, keep, n - 1);
      if keep[n - 1] {
        RankedNext(runs, keep, n - 1, items);
      }
    } else {
      NoneRanked(runs, keep);
    }
  }

  lemma NoneRanked(runs: seq<Run>, keep: seq<bool>)
    ensures Ranked(InsertedAll(Kept(References(runs), keep, 0)))
  {
  }

  lemma RankedNext(runs: seq<Run>, keep: seq<bool>, n: nat, items: seq<Item>)
    requires n < |runs| && n < |keep| && items == Kept(References(runs), keep, n) && Ranked(InsertedAll(items))
    ensures Ranked(InsertedAll(items + [Item(runs[n].size, n)]))
  {
    var v := Item(runs[n].size, n);
    KeptNumbers(runs, keep, n);
    InsertedAllIsStableSort(items);
    hide Inserted, InsertedAll, Kept, Ranked, Sorted, LargestFirst, OfSize;
    SameItems(InsertedAll(items), items);
    InsertedRanked(InsertedAll(items), v);
    InsertedAllNext(items, v);
  }

  lemma InsertedAllNext(items: seq<Item>, v: Item)
    ensures InsertedAll(items + [v]) == Inserted(InsertedAll(items), v)
  {
    assert (items + [v])[..|items|] == items;
  }

  /** The items of the collection are those of the runs that are kept. */
  lemma OrderNumbers(runs: seq<Run>, keep: seq<bool>)
    requires |keep| == |runs|
    ensures Ranked(Order(runs, keep))
    ensures forall x :: x in Order(runs, keep) ==> x.id < |runs| && keep[x.id] && x.size == runs[x.id].size
    ensures forall k: nat :: k < |runs| && keep[k] ==> Item(runs[k].size, k) in Order(runs, keep)
  {
    var items := Kept(References(runs), keep, |runs|);
    KeptRanked(runs, keep, |runs|);
    KeptNumbers(runs, keep, |runs|);
    InsertedAllIsStableSort(items);
    SameItems(InsertedAll(items), items);
  }

  ghost function Numbers(order: seq<Item>): (r: seq<nat>)
    ensures |r| == |order| && forall i :: 0 <= i < |r| ==> r[i] == order[i].id
  {
    if order == [] then [] else Numbers(order[..|order| - 1]) + [order[|order| - 1].id]
  }

  lemma ShownInOrder(runs: seq<Run>, keep: seq<bool>, shown: seq<Shown>) returns (found: seq<nat>)
    requires |keep| == |runs| && |shown| == |Order(runs, keep)|
    requires forall i :: 0 <= i < |shown| ==> shown[i].run == runs[Order(runs, keep)[i].id]
    ensures InShowingOrder(runs, keep, found, shown)
  {
    var order := Order(runs, keep);
    OrderNumbers(runs, keep);
    hide Order;
    found := Numbers(order);
    hide Numbers;
    forall k: nat | k < |runs| && keep[k] ensures k in found {
      var i :| 0 <= i < |order| && order[i] == Item(runs[k].size, k);
      assert found[i] == k;
    }
    forall i | 0 <= i < |found| ensures found[i] < |runs| && keep[found[i]] && order[i].size == runs[found[i]].size {
      assert order[i] in order;
    }
    forall i, j | 0 <= i < j < |shown|
      ensures shown[i].run.size > shown[j].run.size || (shown[i].run.size == shown[j].run.size && found[i] < found[j])
    {
      assert Ahead(order[i], order[j]);
    }
  }

  /**
    Shows the runs with their lines. A run for which there is no memory in the collection is not kept,
    and `overflow` tells so. Files that are not `readable` in the second pass are needed only without the
    cache; whenever it is there, the lines are those of the tokens.
   */
  method ShowRuns(files: seq<Argument>, minRun: nat, lang: Language, o: Options, tableSize: nat, readable: seq<bool>,
                  memory: bool, cacheMemory: bool)
    returns (ok: bool, shown: seq<Shown>, overflow: bool, cached: bool, ghost keep: seq<bool>, ghost found: seq<nat>)
    requires minRun >= 1 && tableSize >= 1 && |readable| == |files|
    ensures memory ==> ok && !overflow
    ensures ok ==> Survives(memory, cacheMemory, cached, AllShort(files, |files|))
    ensures ok ==> var c := CorpusOf(files, minRun, lang);
      && c.Valid()
      && var runs := AllRuns(c, o, c.newTexts);
      && |keep| == |runs| && overflow == (false in keep)
      && InShowingOrder(runs, keep, found, shown)
      && (forall i, j :: 0 <= i < j < |shown| ==> shown[i].run.size >= shown[j].run.size)
      && AreShown(files, c.texts, readable, cached, runs, keep, shown)
      && (cached ==> forall i :: 0 <= i < |shown| ==>
            InFiles(files, c.texts, shown[i].run) && shown[i].lines == TokenLines(files, c.texts, shown[i].run))
  {
    hide AllTokens, AllRuns, AllShort, Survives, Input, CorpusOf, Corpus.Valid, Recorded, InFiles, LinesOf, TokenLines;
    hide Order, Complete, Admissible, InShowingOrder;
    var r, segments, c, runs;
    ok, r, segments, c, runs := ReadAndCompare(files, minRun, lang, o, tableSize, memory, cacheMemory);
    shown, overflow, cached, keep, found := [], false, false, [], [];
    if ok {
      var order;
      order, overflow, keep := CollectRuns(References(runs), memory);
      OrderIs(runs, keep, order);
      var lines := Locate(r, files, segments, readable, runs, c, minRun, lang, o);
      cached := r.buffer != null;
      shown := ShowOrder(runs, lines, order, keep);
      found := ShownInOrder(runs, keep, shown);
      LargestShownFirst(runs, keep, found, shown);
      if cached {
        ShownLines(files, c.texts, readable, cached, runs, keep, shown);
      }
    }
  }

  lemma LargestShownFirst(runs: seq<Run>, keep: seq<bool>, found: seq<nat>, shown: seq<Shown>)
    requires |keep| == |runs| && InShowingOrder(runs, keep, found, shown)
    ensures forall i, j :: 0 <= i < j < |shown| ==> shown[i].run.size >= shown[j].run.size
  {
  }

  lemma OrderIs(runs: seq<Run>, keep: seq<bool>, order: seq<Item>)
    requires |keep| == |runs| && order == InsertedAll(Kept(References(runs), keep, |runs|))
    ensures order == Order(runs, keep)
  {
  }

  /** Iterates over the collection, and shows each run with its lines. */
  method ShowOrder(runs: seq<Run>, lines: seq<Lines>, order: seq<Item>, ghost keep: seq<bool>)
    returns (shown: seq<Shown>)
    requires |lines| == |runs| == |keep| && order == Order(runs, keep)
    ensures |shown| == |order|
    ensures forall i :: 0 <= i < |order| ==> shown[i] == Shown(runs[order[i].id], lines[order[i].id])
  {
    hide Order;
    shown := [];
    for i := 0 to |order|
      invariant |shown| == i
      invariant forall k :: 0 <= k < i ==> shown[k] == Shown(runs[order[k].id], lines[order[k].id])
    {
      shown := shown + [Shown(runs[order[i].id], lines[order[i].id])];
    }
  }

  lemma ShownLines(files: seq<Argument>, texts: seq<Text>, readable: seq<bool>, cached: bool, runs: seq<Run>,
                   keep: seq<bool>, shown: seq<Shown>)
    requires |readable| == |files| && |keep| == |runs|
    requires cached && AreShown(files, texts, readable, cached, runs, keep, shown)
    ensures forall i :: 0 <= i < |shown| ==>
      InFiles(files, texts, shown[i].run) && shown[i].lines == TokenLines(files, texts, shown[i].run)
  {
    forall i | 0 <= i < |shown|
      ensures InFiles(files, texts, shown[i].run) && shown[i].lines == TokenLines(files, texts, shown[i].run)
    {
      CachedLines(files, texts, readable, runs[Order(runs, keep)[i].id]);
    }
  }

  /**
    Shows the percentages, or only the main contributors. Files are then compared separately, and not
    to themselves.
   */
  method ShowShares(files: seq<Argument>, minRun: nat, lang: Language, oldOnly: bool, tableSize: nat,
                    mainOnly: bool, threshold: nat, memory: bool, cacheMemory: bool)
    returns (ok: bool, lines: seq<Percentages.Line>)
    requires minRun >= 1 && tableSize >= 1
    ensures memory ==> ok
    ensures ok ==> var c := CorpusOf(files, minRun, lang);
      && c.Valid()
      && Percentages.IsReport(lines,
           Percentages.AllEntered(c, AllRuns(c, Options(true, true, oldOnly), c.newTexts)), mainOnly, threshold)
      && var runs := AllRuns(c, Options(true, true, oldOnly), c.newTexts);
      && Percentages.Truthful(c, runs, lines, threshold)
      && (if mainOnly then Percentages.ShowsMain(c, runs, lines, threshold)
          else Percentages.ShowsAll(c, runs, lines, threshold))
  {
    hide AllTokens, AllRuns, Input, CorpusOf, Corpus.Valid, Recorded, Percentages.IsReport;
    hide Percentages.Truthful, Percentages.ShowsMain, Percentages.ShowsAll;
    var o := Options(true, true, oldOnly);
    var r, segments, c, runs;
    ok, r, segments, c, runs := ReadAndCompare(files, minRun, lang, o, tableSize, memory, cacheMemory);
    lines := [];
    if ok {
      lines := Percentages.ShowPercentages(c, o, runs, mainOnly, threshold);
    }
  }
}
