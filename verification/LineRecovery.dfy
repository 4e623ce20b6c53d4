/**
  The second pass: from token positions to line numbers, by a parallel scan of the sorted positions
  and the line ends of each text.
 */
module LineRecovery {
  import opened Tokens
  import opened LinkedLists
  import opened TextReading

  /** The first or last token of a chunk, and its line number once it has been found. */
  datatype Position = Position(isLast: bool, token: nat, line: nat)

  const NOT_SET: nat := 0xFFFF_FFFF_FFFF_FFFF

  predicate EarlierToken(p: Position, q: Position) {
    p.token < q.token
  }

  /** The line of a token is terminated by a line end. */
  ghost predicate OnTerminatedLine(s: seq<Token>, token: nat) {
    token < LastOr0(LineEnds(s))
  }

  /**
    The line number that a position gets: its line for the first token of a chunk, one more for the
    last token. Without the cache a last token on a last line that is not terminated gets its line.
   */
  ghost function LineFor(s: seq<Token>, cached: bool, p: Position): nat
    requires p.token < Count(s)
  {
    LineOf(s, p.token) + if p.isLast && (cached || OnTerminatedLine(s, p.token)) then 1 else 0
  }

  /**
    A scan that has reached the line of `token`, or one before it; `old_` is the number of the line
    before the last line end.
   */
  ghost predicate Approaches(r: Reader, s: seq<Token>, start: nat, limit: nat, k: nat, ended: bool, old_: nat,
                             token: nat)
    reads r, r.Repr()
  {
    if ended then
      r.buffer == null && r.Exhausted(s) && old_ == r.lexLineCount && LastOr0(LineEnds(s)) <= token
    else
      && r.Behind(s, start, limit, k)
      && old_ == (if k == 0 then 1 else k)
      && (k >= 2 ==> r.SeenEnds(s)[k - 2] <= token)
  }

  /** Behind the first line end that lies behind the token, its line is known. */
  lemma LineFound(r: Reader, s: seq<Token>, start: nat, limit: nat, k: nat, ended: bool, old_: nat, p: Position)
    requires Approaches(r, s, start, limit, k, ended, old_, p.token)
    requires p.token < r.lexTokenCount && p.token < Count(s)
    ensures (if p.isLast then r.lexLineCount else old_) == LineFor(s, r.buffer != null, p)
  {
    hide Count, LineEnds, LineOf;
    LineEndsBefore(s, p.token);
    var ends := LineEnds(s);
    if !ended {
      assert k > 0;
      var seen := r.SeenEnds(s);
      assert seen[..k][k - 1] == seen[k - 1];
      assert k >= 2 ==> seen[k - 2] == ends[k - 2];
      assert k - 1 < |ends| ==> seen[k - 1] == ends[k - 1];
    }
  }

  /** What is known as long as the token does not lie on the line. */
  lemma NotYet(r: Reader, s: seq<Token>, start: nat, limit: nat, k: nat, ended: bool, old_: nat, token: nat)
    requires Approaches(r, s, start, limit, k, ended, old_, token) && r.lexTokenCount <= token < Count(s)
    ensures !ended && r.Behind(s, start, limit, k) && r.lexLineCount == k + 1 && k <= |r.SeenEnds(s)|
    ensures k >= 1 ==> r.SeenEnds(s)[k - 1] <= token
    ensures k == |r.SeenEnds(s)| ==> r.buffer == null && LastOr0(LineEnds(s)) <= token
  {
    hide Count, LineEnds, LineOf;
    var seen := r.SeenEnds(s);
    assert k > 0 ==> seen[..k][k - 1] == seen[k - 1];
  }

  lemma Closer(r: Reader, s: seq<Token>, start: nat, limit: nat, k: nat, ok: bool, token: nat)
    requires ok ==> r.Behind(s, start, limit, k + 1) && (k >= 1 ==> r.SeenEnds(s)[k - 1] <= token)
    requires !ok ==> r.buffer == null && r.Exhausted(s) && r.lexLineCount == k + 1 && LastOr0(LineEnds(s)) <= token
    ensures Approaches(r, s, start, limit, if ok then k + 1 else k, !ok, k + 1, token)
  {
  }

  /** Goes on behind the first line end that lies behind the token. */
  method FindLine(r: Reader, oldLine: nat, token: nat, ghost s: seq<Token>, ghost start: nat, ghost limit: nat,
                  ghost k: nat, ghost ended: bool)
    returns (newOld: nat, ghost k': nat, ghost ended': bool)
    requires Approaches(r, s, start, limit, k, ended, oldLine, token) && token < Count(s)
    modifies r`bufferNext, r`lastTokenCount, r`lastLineCount, r`lexLineCount, r`lexTokenCount, r`lexToken, r`at
    ensures Approaches(r, s, start, limit, k', ended', newOld, token) && token < r.lexTokenCount
  {
    hide Count, LineEnds, LineOf, Approaches;
    newOld, k', ended' := oldLine, k, ended;
    while token >= r.lexTokenCount
      invariant Approaches(r, s, start, limit, k', ended', newOld, token)
      decreases |r.SeenEnds(s)| - k'
    {
      NotYet(r, s, start, limit, k', ended', newOld, token);
      newOld := r.lexLineCount;
      var ok := r.NextEol(s, start, limit, k');
      Closer(r, s, start, limit, k', ok, token);
      if !ok {
        // the end of a file whose last line is not terminated
        ended' := true;
        break;
      }
      k' := k' + 1;
    }
  }

  /** A text, as far as the second pass is concerned: its tokens and line ends, its part of the cache, its positions. */
  class TextEntry {
    const stream: seq<Token>
    const start: nat  // where its tokens start in the token array
    const cacheStart: nat  // its part of the cache
    const cacheLimit: nat
    var positions: Link?<Position>
    ghost var chain: seq<Link<Position>>  // the list of positions

    ghost predicate Valid()
      reads this, chain
    {
      && Chain(positions, chain)
      && forall x :: x in chain ==> x.item.token < Count(stream)
    }

    constructor (s: seq<Token>, from: nat, cacheFrom: nat, cacheTo: nat)
      ensures Valid() && stream == s && start == from && chain == []
      ensures cacheStart == cacheFrom && cacheLimit == cacheTo
    {
      stream, start, cacheStart, cacheLimit, positions, chain := s, from, cacheFrom, cacheTo, null, [];
    }

    /** Puts a position, whose line is not known yet, at the head of the list. */
    method SetPosition(isLast: bool, token: nat) returns (pos: Link<Position>)
      requires Valid() && token < Count(stream)
      modifies this`positions, this`chain
      ensures Valid() && fresh(pos) && pos.item == Position(isLast, token, NOT_SET)
      ensures chain == [pos] + old(chain)
    {
      hide Count;
      pos := new Link(Position(isLast, token, NOT_SET));
      pos.next := positions;
      ghost var was := chain;
      positions, chain := pos, [pos] + chain;
      assert forall i: nat :: At(chain, i + 1) == At(was, i);
    }
  }

  /** Ordered by token, all of them. */
  lemma {:induction false} OrderedTokens(chain: seq<Link<Position>>, i: nat, j: nat)
    requires Ordered(EarlierToken, chain) && i <= j < |chain|
    ensures chain[i].item.token <= chain[j].item.token
    decreases j
  {
    if i < j {
      OrderedTokens(chain, i, j - 1);
      assert !EarlierToken(chain[j].item, chain[j - 1].item);
    }
  }

  /** Positions in ascending order, all of them in the text. */
  ghost predicate Ascending(s: seq<Token>, items: seq<Position>) {
    && (forall i :: 0 <= i < |items| ==> items[i].token < Count(s))
    && forall i, j :: 0 <= i <= j < |items| ==> items[i].token <= items[j].token
  }

  /** The position with its line filled in, if it is a position in the text. */
  ghost function Recovered(s: seq<Token>, cached: bool, p: Position): Position {
    if p.token < Count(s) then p.(line := LineFor(s, cached, p)) else p
  }

  lemma ApproachesLater(r: Reader, s: seq<Token>, start: nat, limit: nat, k: nat,
                        ended: bool, old_: nat, t: nat, u: nat)
    requires Approaches(r, s, start, limit, k, ended, old_, t) && t <= u
    ensures Approaches(r, s, start, limit, k, ended, old_, u)
  {
  }

  /** Fills in the line number of one position. */
  method Recover(r: Reader, pos: Link<Position>, oldLine: nat,
                 ghost s: seq<Token>, ghost start: nat, ghost limit: nat, ghost k: nat, ghost ended: bool)
    returns (newOld: nat, ghost k': nat, ghost ended': bool)
    requires Approaches(r, s, start, limit, k, ended, oldLine, pos.item.token) && pos.item.token < Count(s)
    modifies pos`item, r`bufferNext, r`lastTokenCount, r`lastLineCount, r`lexLineCount, r`lexTokenCount, r`lexToken,
             r`at
    ensures Approaches(r, s, start, limit, k', ended', newOld, old(pos.item.token))
    ensures pos.item == Recovered(s, r.buffer != null, old(pos.item))
  {
    hide Count, LineEnds, LineOf, Approaches;
    newOld, k', ended' := FindLine(r, oldLine, pos.item.token, s, start, limit, k, ended);
    LineFound(r, s, start, limit, k', ended', newOld, pos.item);
    assert pos !in r.Repr();
    if pos.item.isLast {
      pos.item := pos.item.(line := r.lexLineCount);
    } else {
      pos.item := pos.item.(line := newOld);
    }
  }

  /** Scans the sorted positions and the line ends in parallel, and fills in the line numbers. */
  method FillIn(r: Reader, head: Link?<Position>, ghost chain: seq<Link<Position>>, ghost items: seq<Position>,
                ghost s: seq<Token>, ghost start: nat, ghost limit: nat)
    requires r.Behind(s, start, limit, 0) && Chain(head, chain) && Ascending(s, items)
    requires |items| == |chain| && forall i :: 0 <= i < |chain| ==> chain[i].item == items[i]
    modifies chain`item, r`bufferNext, r`lastTokenCount, r`lastLineCount, r`lexLineCount, r`lexTokenCount, r`lexToken,
             r`at
    ensures forall i :: 0 <= i < |chain| ==> chain[i].item == Recovered(s, r.buffer != null, items[i])
  {
    hide Count, LineEnds, Recovered, Approaches, Ascending, Filled, Chain, Reader.Behind;
    StartFilled(chain, items, s, r.buffer != null);
    ListStarts(head, chain);
    var oldLine := 1;
    var pos := head;
    ghost var i, k, ended := 0, 0, false;
    if pos != null {
      Start(r, s, start, limit, items[0].token);
    }
    while pos != null
      invariant i <= |chain| && pos == At(chain, i)
      invariant i < |chain| ==> Approaches(r, s, start, limit, k, ended, oldLine, items[i].token)
      invariant Filled(chain, items, i, s, r.buffer != null)
      invariant Chain(head, chain)
      decreases |chain| - i
    {
      AscendingAt(s, items, i);
      ListContinues(head, chain, i);
      FilledAt(chain, items, i, s, r.buffer != null);
      oldLine, k, ended := RecoverNext(r, pos, oldLine, chain, items, i, s, start, limit, k, ended);
      if i + 1 < |chain| {
        ApproachesLater(r, s, start, limit, k, ended, oldLine, items[i].token, items[i + 1].token);
      }
      pos := pos.next;
      i := i + 1;
    }
    EndFilled(chain, items, s, r.buffer != null);
  }

  /** The first `i` positions have got their lines. */
  ghost predicate Filled(chain: seq<Link<Position>>, items: seq<Position>, i: nat, s: seq<Token>, cached: bool)
    reads chain`item
  {
    |items| == |chain| && forall j :: 0 <= j < |chain| ==>
      chain[j].item == if j < i then Recovered(s, cached, items[j]) else items[j]
  }

  lemma StartFilled(chain: seq<Link<Position>>, items: seq<Position>, s: seq<Token>, cached: bool)
    requires |items| == |chain| && forall i :: 0 <= i < |chain| ==> chain[i].item == items[i]
    ensures Filled(chain, items, 0, s, cached)
  {
  }

  lemma EndFilled(chain: seq<Link<Position>>, items: seq<Position>, s: seq<Token>, cached: bool)
    requires Filled(chain, items, |chain|, s, cached)
    ensures forall i :: 0 <= i < |chain| ==> chain[i].item == Recovered(s, cached, items[i])
  {
  }

  lemma FilledAt(chain: seq<Link<Position>>, items: seq<Position>, i: nat, s: seq<Token>, cached: bool)
    requires Filled(chain, items, i, s, cached) && i < |chain|
    ensures chain[i].item == items[i]
  {
  }

  lemma ListStarts(head: Link?<Position>, chain: seq<Link<Position>>)
    requires Chain(head, chain)
    ensures head == At(chain, 0)
  {
  }

  lemma ListContinues(head: Link?<Position>, chain: seq<Link<Position>>, i: nat)
    requires Chain(head, chain) && i < |chain|
    ensures chain[i].next == At(chain, i + 1)
    ensures forall j :: 0 <= j < |chain| && j != i ==> chain[j] != chain[i]
  {
  }

  /** Fills in the next position of the list. */
  method RecoverNext(r: Reader, pos: Link<Position>, oldLine: nat, ghost chain: seq<Link<Position>>,
                     ghost items: seq<Position>,
                     ghost i: nat, ghost s: seq<Token>, ghost start: nat,
                     ghost limit: nat, ghost k: nat, ghost ended: bool)
    returns (newOld: nat, ghost k': nat, ghost ended': bool)
    requires Filled(chain, items, i, s, r.buffer != null) && i < |chain| && pos == chain[i]
    requires forall j :: 0 <= j < |chain| && j != i ==> chain[j] != pos
    requires Approaches(r, s, start, limit, k, ended, oldLine, items[i].token) && items[i].token < Count(s)
    modifies pos`item, r`bufferNext, r`lastTokenCount, r`lastLineCount, r`lexLineCount, r`lexTokenCount, r`lexToken,
             r`at
    ensures Approaches(r, s, start, limit, k', ended', newOld, items[i].token)
    ensures Filled(chain, items, i + 1, s, r.buffer != null)
  {
    hide Count, Recovered, Approaches;
    newOld, k', ended' := Recover(r, pos, oldLine, s, start, limit, k, ended);
  }

  lemma AscendingAt(s: seq<Token>, items: seq<Position>, i: nat)
    requires Ascending(s, items) && i < |items|
    ensures items[i].token < Count(s) && (i + 1 < |items| ==> items[i].token <= items[i + 1].token)
  {
  }

  lemma Start(r: Reader, s: seq<Token>, start: nat, limit: nat, token: nat)
    requires r.Behind(s, start, limit, 0)
    ensures Approaches(r, s, start, limit, 0, false, 1, token)
  {
  }

  lemma SortedItemsAscend(s: seq<Token>, chain: seq<Link<Position>>)
    requires Ordered(EarlierToken, chain)
    requires forall x :: x in chain ==> x.item.token < Count(s)
    ensures Ascending(s, Items(chain))
  {
    forall i, j | 0 <= i <= j < |chain| ensures Items(chain)[i].token <= Items(chain)[j].token {
      OrderedTokens(chain, i, j);
    }
  }

  /** Fills in positions that have been sorted. */
  method FillInSorted(r: Reader, head: Link?<Position>, ghost chain: seq<Link<Position>>,
                      ghost s: seq<Token>, ghost start: nat, ghost limit: nat)
    requires r.Behind(s, start, limit, 0) && Chain(head, chain) && Ordered(EarlierToken, chain)
    requires forall x :: x in chain ==> x.item.token < Count(s)
    modifies chain`item, r`bufferNext, r`lastTokenCount, r`lastLineCount, r`lexLineCount, r`lexTokenCount, r`lexToken,
             r`at
    ensures forall x :: x in chain ==>
      x.item.token == old(x.item.token) < Count(s) && x.item == Recovered(s, r.buffer != null, old(x.item))
  {
    hide Count, LineEnds, LineFor, Ordered;
    SortedItemsAscend(s, chain);
    FillIn(r, head, chain, Items(chain), s, start, limit);
  }

  /** Sorts the positions of a text. */
  method SortPositions(txt: TextEntry)
    requires txt.Valid()
    modifies txt`positions, txt`chain, txt.chain`next
    ensures txt.Valid() && Ordered(EarlierToken, txt.chain) && multiset(txt.chain) == multiset(old(txt.chain))
    ensures forall x :: x in txt.chain ==> x in old(txt.chain)
  {
    hide Count, Ordered, Asymmetric, Chain;
    TokensAsymmetric();
    var head;
    ghost var sorted;
    head, sorted := Sort(txt.positions, EarlierToken, txt.chain);
    SamePlaces(sorted, txt.chain);
    assert forall x :: x in sorted ==> x.item.token < Count(txt.stream);
    txt.positions, txt.chain := head, sorted;
  }

  /** Sorts the positions, and fills them in; `r` has been opened for the second pass. */
  method ScanText(r: Reader, txt: TextEntry)
    requires txt.Valid() && r.Behind(txt.stream, txt.cacheStart, txt.cacheLimit, 0)
    modifies r`bufferNext, r`lastTokenCount, r`lastLineCount, r`lexLineCount, r`lexTokenCount, r`lexToken, r`at
    modifies txt`positions, txt`chain, txt.chain
    ensures txt.Valid() && multiset(txt.chain) == multiset(old(txt.chain))
    ensures forall x :: x in old(txt.chain) ==>
      old(x.item.token) < Count(txt.stream) && x.item == Recovered(txt.stream, r.buffer != null, old(x.item))
  {
    hide Count, LineEnds, LineFor, Ordered, Chain, Recovered;
    ghost var chain := txt.chain;
    SortPositions(txt);
    SamePlaces(txt.chain, chain);
    FillInSorted(r, txt.positions, txt.chain, txt.stream, txt.cacheStart, txt.cacheLimit);
    assert forall x :: x in txt.chain ==> x.item.token < Count(txt.stream);
    assert Chain(txt.positions, txt.chain);
  }

  lemma TokensAsymmetric()
    ensures Asymmetric(EarlierToken)
  {
  }

  /**
    Recovers the lines of the positions in one text, unless there are none, or there is no cache and
    the file has disappeared.
   */
  method Pass2Text(r: Reader, txt: TextEntry, readable: bool) returns (ok: bool)
    requires txt.Valid() && r.Caches(txt.stream, txt.cacheStart, txt.cacheLimit)
    modifies r`bufferNext, r`bufferLimit, r`lastTokenCount, r`lastLineCount, r`lexLineCount, r`lexTokenCount,
             r`lexToken, r`stream, r`at
    modifies txt`positions, txt`chain, txt.chain
    ensures txt.Valid() && multiset(txt.chain) == multiset(old(txt.chain))
    ensures ok == (r.buffer != null || readable || old(txt.chain) == [])
    ensures forall x :: x in old(txt.chain) ==>
      old(x.item.token) < Count(txt.stream)
      && x.item == if ok then Recovered(txt.stream, r.buffer != null, old(x.item)) else old(x.item)
  {
    if txt.positions == null {
      assert txt.chain == [];
      return true;
    }
    hide Chain, Recovered;
    ok := r.OpenSecond(txt.stream, txt.cacheStart, txt.cacheLimit, readable);
    if ok {
      ScanText(r, txt);
    }
  }

  /**
    The second pass recovers the same lines with and without the cache, except for last tokens of
    chunks on a line that is not terminated.
   */
  lemma CacheAgreesWithFile(s: seq<Token>, p: Position)
    requires p.token < Count(s)
    ensures Recovered(s, true, p) == Recovered(s, false, p) <==> !p.isLast || OnTerminatedLine(s, p.token)
  {
  }

  /** The last token of a line that is not terminated. */
  lemma CacheDiffersFromFile(s: seq<Token>, p: Position)
    requires s == [1] && p == Position(true, 0, NOT_SET)
    ensures Recovered(s, true, p).line == 2 && Recovered(s, false, p).line == 1
  {
    assert s[..0] == [] && LineEnds(s[..0]) == [] && Count(s[..0]) == 0;
    assert Count(s) == 1 && LineEnds(s) == [];
  }

  lemma {:induction false} TerminatedTextsAgree(s: seq<Token>, p: Position)
    requires p.token < Count(s) && s[|s| - 1] == END_OF_LINE
    ensures Recovered(s, true, p) == Recovered(s, false, p)
  {
    assert LineEnds(s) == LineEnds(s[..|s| - 1]) + [Count(s)];
  }

  // ---------- Runs and their chunks ----------

  /** A stretch of a text, by its first and last token. */
  class Chunk {
    const text: TextEntry
    const first: Link<Position>
    const last: Link<Position>

    constructor (t: TextEntry, f: Link<Position>, l: Link<Position>)
      ensures text == t && first == f && last == l
    {
      text, first, last := t, f, l;
    }

    /**
      The positions of the chunk are on the list of its text, and are those of its first and last
      token; their lines are not known yet.
     */
    ghost predicate Covers(start: nat, size: nat)
      reads this, text, first`item, last`item
    {
      && first in text.chain && last in text.chain && size > 0
      && first.item == Position(false, start, NOT_SET)
      && last.item == Position(true, start + size - 1, NOT_SET)
    }
  }

  method SetChunk(txt: TextEntry, start: nat, size: nat) returns (chunk: Chunk)
    requires txt.Valid() && size > 0 && start + size <= Count(txt.stream)
    modifies txt`positions, txt`chain
    ensures txt.Valid() && fresh(chunk) && chunk.text == txt && chunk.Covers(start, size)
    ensures txt.chain == [chunk.last, chunk.first] + old(txt.chain)
    ensures fresh(chunk.first) && fresh(chunk.last)
  {
    hide Count, Chain;
    var first := txt.SetPosition(false, start);
    var last := txt.SetPosition(true, start + size - 1);
    chunk := new Chunk(txt, first, last);
  }

  ghost function FourEnds(chunk0: Chunk, chunk1: Chunk): set<Link<Position>> {
    {chunk0.first, chunk0.last, chunk1.first, chunk1.last}
  }

  /** Adds a run: four positions, on the lists of its texts, which may be one and the same. */
  method AddRun(txt0: TextEntry, i0: nat, txt1: TextEntry, i1: nat, size: nat) returns (chunk0: Chunk, chunk1: Chunk)
    requires txt0.Valid() && txt1.Valid() && size > 0
    requires txt0.start <= i0 && i0 - txt0.start + size <= Count(txt0.stream)
    requires txt1.start <= i1 && i1 - txt1.start + size <= Count(txt1.stream)
    requires forall x :: x in txt0.chain && txt0 != txt1 ==> x !in txt1.chain
    modifies txt0`positions, txt0`chain, txt1`positions, txt1`chain
    ensures txt0.Valid() && txt1.Valid()
    ensures chunk0.text == txt0 && chunk0.Covers(i0 - txt0.start, size)
    ensures chunk1.text == txt1 && chunk1.Covers(i1 - txt1.start, size)
    ensures forall x :: x in txt0.chain && txt0 != txt1 ==> x !in txt1.chain
    ensures forall x :: x in old(txt0.chain) ==> x in txt0.chain
    ensures forall x :: x in old(txt1.chain) ==> x in txt1.chain
    ensures forall x :: x in txt0.chain ==> x in old(txt0.chain) || x in FourEnds(chunk0, chunk1)
    ensures forall x :: x in txt1.chain ==> x in old(txt1.chain) || x in FourEnds(chunk0, chunk1)
    ensures fresh(FourEnds(chunk0, chunk1))
  {
    hide Count, Chain;
    chunk0 := SetChunk(txt0, i0 - txt0.start, size);
    chunk1 := SetChunk(txt1, i1 - txt1.start, size);
  }

  // ---------- The second pass over all texts ----------

  /** Different texts, with different positions. */
  ghost predicate Separate(texts: seq<TextEntry>)
    reads texts
  {
    forall a, b :: 0 <= a < b < |texts| ==>
      texts[a] != texts[b] && (forall x :: x in texts[a].chain ==> x !in texts[b].chain)
  }

  /** Every text has its part of the cache. */
  ghost predicate AllCached(r: Reader, texts: seq<TextEntry>)
    reads r`buffer, r.buffer, if r.buffer == null then {} else {r.buffer.data}
  {
    forall k :: 0 <= k < |texts| ==> r.Caches(texts[k].stream, texts[k].cacheStart, texts[k].cacheLimit)
  }

  ghost predicate ValidTexts(texts: seq<TextEntry>, links: set<Link<Position>>)
    reads texts, links
  {
    && Separate(texts)
    && forall k :: 0 <= k < |texts| ==> (forall x :: x in texts[k].chain ==> x in links) && texts[k].Valid()
  }

  /** What the second pass makes of a position of text `k`, when it was `p`. */
  ghost function Retrieved(r: Reader, txt: TextEntry, readable: bool, p: Position): Position
    reads r`buffer
  {
    if r.buffer != null || readable then Recovered(txt.stream, r.buffer != null, p) else p
  }

  /** Recovers the lines of the positions in one text, and leaves the others alone. */
  method RetrieveText(r: Reader, ghost texts: seq<TextEntry>, txt: TextEntry, readable: bool,
                      ghost links: set<Link<Position>>) returns (ok: bool)
    requires txt in texts && ValidTexts(texts, links) && AllCached(r, texts)
    modifies r`bufferNext, r`bufferLimit, r`lastTokenCount, r`lastLineCount, r`lexLineCount, r`lexTokenCount,
             r`lexToken, r`stream, r`at
    modifies txt`positions, txt`chain, links
    ensures ok == (r.buffer != null || readable || old(txt.chain) == [])
    ensures ValidTexts(texts, links) && AllCached(r, texts)
    ensures multiset(txt.chain) == multiset(old(txt.chain))
    ensures forall x :: x in old(txt.chain) ==> x in txt.chain && x.item == Retrieved(r, txt, readable, old(x.item))
    ensures forall x :: x in links && x !in old(txt.chain) ==> x.item == old(x.item)
  {
    hide Count, Recovered, Chain;
    ghost var chain := txt.chain;
    assert forall i :: 0 <= i < |chain| ==> chain[i] in links;
    ok := Pass2Text(r, txt, readable);
    SamePlaces(txt.chain, chain);
  }

  lemma SeparateFrom(texts: seq<TextEntry>, n: nat, links: set<Link<Position>>)
    requires ValidTexts(texts, links) && n < |texts|
    ensures forall k :: 0 <= k < |texts| && k != n ==>
      texts[k] != texts[n] && (forall x :: x in texts[k].chain ==> x in links && x !in texts[n].chain)
  {
  }

  /** Recovers the lines of all positions in all texts, as far as the files can be read. */
  method RetrieveRuns(r: Reader, texts: seq<TextEntry>, readable: seq<bool>, ghost links: set<Link<Position>>)
    requires |readable| == |texts| && ValidTexts(texts, links) && AllCached(r, texts)
    modifies r`bufferNext, r`bufferLimit, r`lastTokenCount, r`lastLineCount, r`lexLineCount, r`lexTokenCount,
             r`lexToken, r`stream, r`at
    modifies texts`positions, texts`chain, links
    ensures ValidTexts(texts, links)
    ensures forall k :: 0 <= k < |texts| ==> multiset(texts[k].chain) == multiset(old(texts[k].chain))
    ensures forall k, x :: 0 <= k < |texts| && x in old(texts[k].chain) ==>
      x.item == Retrieved(r, texts[k], readable[k], old(x.item))
  {
    hide Count, Recovered, Chain, CachedIn, ValidTexts, AllCached, Retrieved;
    for n := 0 to |texts|
      invariant ValidTexts(texts, links) && AllCached(r, texts)
      invariant forall k :: 0 <= k < |texts| ==> multiset(texts[k].chain) == multiset(old(texts[k].chain))
      invariant forall k, x :: 0 <= k < |texts| && x in old(texts[k].chain) ==> x in texts[k].chain
      invariant forall k :: n <= k < |texts| ==> texts[k].chain == old(texts[k].chain)
      invariant forall k, x :: n <= k < |texts| && x in old(texts[k].chain) ==> x.item == old(x.item)
      invariant forall k, x :: 0 <= k < n && x in old(texts[k].chain) ==>
        x.item == Retrieved(r, texts[k], readable[k], old(x.item))
    {
      SeparateFrom(texts, n, links);
      var ok := RetrieveText(r, texts, texts[n], readable[n], links);
    }
  }
}
