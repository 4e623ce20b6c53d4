/**
  The judge's comparison of the output of a submission with the expected output.
 */
module OutputVerdict {

  type Byte = b: int | 0 <= b < 256
  type Bytes = seq<Byte>

  const EOF: int := -1
  const NUL: int := 0
  const LF: int := 10
  const CR: int := 13

  datatype Verdict = Accepted | PresentationError | WrongAnswer | RuntimeError

  predicate IsSpace(c: int) {
    c == 32 || 9 <= c <= 13
  }

  // ---------- What the verdict must be ----------

  /** A character that is part of a word. A NUL is not: it is a word by itself. */
  predicate InWord(c: int) {
    !IsSpace(c) && c != NUL
  }

  /** The length of the white space that `s` starts with. */
  ghost function GapLength(s: Bytes): (n: nat)
    ensures n <= |s| && (n < |s| ==> !IsSpace(s[n]))
  {
    if s != [] && IsSpace(s[0]) then 1 + GapLength(s[1..]) else 0
  }

  ghost function Gap(s: Bytes): Bytes {
    s[..GapLength(s)]
  }

  ghost function Trimmed(s: Bytes): Bytes {
    s[GapLength(s)..]
  }

  /** The length of the piece of a word that `s` starts with. */
  ghost function PieceLength(s: Bytes): (n: nat)
    ensures n <= |s| && (n < |s| ==> !InWord(s[n]))
  {
    if s != [] && InWord(s[0]) then 1 + PieceLength(s[1..]) else 0
  }

  ghost function Piece(s: Bytes): Bytes {
    s[..PieceLength(s)]
  }

  ghost function Rest(s: Bytes): Bytes {
    s[PieceLength(s)..]
  }

  /** The length of the word at the start of a text that starts with no white space. */
  ghost function WordLength(s: Bytes): (n: nat)
    requires s != [] && !IsSpace(s[0])
    ensures 1 <= n <= |s|
  {
    if s[0] == NUL then 1 else PieceLength(s)
  }

  ghost function Words(s: Bytes): seq<Bytes>
    decreases |s|
  {
    var u := Trimmed(s);
    if u == [] then [] else [u[..WordLength(u)]] + Words(u[WordLength(u)..])
  }

  /** The white space before the first word, between words, and behind the last. */
  ghost function Gaps(s: Bytes): (r: seq<Bytes>)
    ensures |r| == |Words(s)| + 1
    decreases |s|
  {
    var u := Trimmed(s);
    [Gap(s)] + if u == [] then [] else Gaps(u[WordLength(u)..])
  }

  function DropOne(g: Bytes): Bytes {
    if g == [] then g else g[1..]
  }

  /**
    Two stretches of white space are the same, but for a return that stands in for the newline, or
    for the return and what follows it. Where one of the files ends the other may have more of it.
   */
  ghost predicate Agree(g: Bytes, h: Bytes, end1: bool, end2: bool)
    decreases |g| + |h|
  {
    if g == [] then h == [] || end1
    else if h == [] then end2
    else if g[0] == h[0] then Agree(g[1..], h[1..], end1, end2)
    else if g[0] == CR && h[0] == LF then Agree(DropOne(g[1..]), h[1..], end1, end2)
    else if g[0] == LF && h[0] == CR then Agree(g[1..], DropOne(h[1..]), end1, end2)
    else false
  }

  /** The stretches agree pairwise; behind the last one the files end. */
  ghost predicate AllAgree(gs: seq<Bytes>, hs: seq<Bytes>)
    requires |gs| == |hs|
  {
    gs != [] ==> Agree(gs[0], hs[0], |gs| == 1, |gs| == 1) && AllAgree(gs[1..], hs[1..])
  }

  /** The verdict, in terms of the words and the white space of the two files. */
  ghost function Judgement(a: Bytes, b: Bytes): Verdict {
    if Words(a) != Words(b) then WrongAnswer
    else if AllAgree(Gaps(a), Gaps(b)) then Accepted
    else PresentationError
  }

  // ---------- What words are ----------

  ghost predicate IsGap(g: Bytes) {
    forall i :: 0 <= i < |g| ==> IsSpace(g[i])
  }

  ghost predicate IsWord(w: Bytes) {
    w != [] && (w == [NUL] || forall i :: 0 <= i < |w| ==> InWord(w[i]))
  }

  /** White space and words take turns; only next to a NUL there may be none between two words. */
  ghost predicate TakeTurns(gs: seq<Bytes>, ws: seq<Bytes>) {
    && |gs| == |ws| + 1
    && IsGap(gs[0])
    && (ws != [] ==> IsWord(ws[0]) && TakeTurns(gs[1..], ws[1..]))
    && (|ws| > 1 && gs[1] == [] ==> ws[0] == [NUL] || ws[1] == [NUL])
  }

  ghost function Woven(gs: seq<Bytes>, ws: seq<Bytes>): Bytes
    requires |gs| == |ws| + 1
  {
    if ws == [] then gs[0] else gs[0] + ws[0] + Woven(gs[1..], ws[1..])
  }

  lemma {:induction false} GapIsGap(s: Bytes)
    ensures IsGap(Gap(s)) && s == Gap(s) + Trimmed(s)
  {
    if s != [] && IsSpace(s[0]) {
      GapIsGap(s[1..]);
      assert forall i :: 0 < i < |Gap(s)| ==> Gap(s)[i] == Gap(s[1..])[i - 1];
    }
  }

  lemma {:induction false} PieceInWord(s: Bytes)
    ensures forall i :: 0 <= i < |Piece(s)| ==> InWord(Piece(s)[i])
  {
    if s != [] && InWord(s[0]) {
      PieceInWord(s[1..]);
      assert forall i :: 0 < i < |Piece(s)| ==> Piece(s)[i] == Piece(s[1..])[i - 1];
    }
  }

  /** One more stretch of white space and one more word in front. */
  lemma OneMoreWord(g: Bytes, w: Bytes, gs: seq<Bytes>, ws: seq<Bytes>)
    requires IsGap(g) && IsWord(w) && TakeTurns(gs, ws)
    requires ws != [] && gs[0] == [] ==> w == [NUL] || ws[0] == [NUL]
    ensures TakeTurns([g] + gs, [w] + ws) && Woven([g] + gs, [w] + ws) == g + (w + Woven(gs, ws))
  {
    assert ([g] + gs)[1..] == gs && ([w] + ws)[1..] == ws;
  }

  /** The first word of a text, and how the rest of the text starts. */
  lemma FirstWord(s: Bytes) returns (w: Bytes, rest: Bytes)
    requires Trimmed(s) != []
    ensures IsWord(w) && |rest| < |s| && s == Gap(s) + (w + rest)
    ensures Gaps(s) == [Gap(s)] + Gaps(rest) && Words(s) == [w] + Words(rest)
    ensures Words(rest) != [] && Gap(rest) == [] ==> w == [NUL] || Words(rest)[0] == [NUL]
  {
    GapIsGap(s);
    var u := Trimmed(s);
    w, rest := u[..WordLength(u)], u[WordLength(u)..];
    WordIsWord(u);
    hide GapLength, WordLength, IsWord;
  }

  /** The word at the start of a text, and what may follow it directly. */
  lemma WordIsWord(u: Bytes)
    requires u != [] && !IsSpace(u[0])
    ensures var w, rest := u[..WordLength(u)], u[WordLength(u)..];
      && IsWord(w) && u == w + rest
      && (Words(rest) != [] && Gap(rest) == [] ==> w == [NUL] || Words(rest)[0] == [NUL])
  {
    var w, rest := u[..WordLength(u)], u[WordLength(u)..];
    if u[0] == NUL {
      assert w == [NUL];
    } else {
      PieceInWord(u);
      assert w == Piece(u);
      NulFollows(rest);
    }
  }

  lemma NulFollows(rest: Bytes)
    requires rest != [] ==> !InWord(rest[0])
    ensures Words(rest) != [] && Gap(rest) == [] ==> Words(rest)[0] == [NUL]
  {
    GapStep(rest);
    hide GapLength;
    if Words(rest) != [] && Gap(rest) == [] {
      assert Trimmed(rest) == rest && rest[0] == NUL;
      assert rest[..1] == [NUL];
    }
  }

  /** A text consists of its white space and its words, which are as long as they can be. */
  lemma {:induction false} TextIsWoven(s: Bytes)
    ensures TakeTurns(Gaps(s), Words(s)) && Woven(Gaps(s), Words(s)) == s
    decreases |s|
  {
    GapIsGap(s);
    if Trimmed(s) != [] {
      var w, rest := FirstWord(s);
      TextIsWoven(rest);
      assert Gaps(rest)[0] == Gap(rest);
      hide *;
      OneMoreWord(Gap(s), w, Gaps(rest), Words(rest));
    }
  }

  /** A text that consists of these is taken apart at the same places. */
  lemma FirstWordIs(g: Bytes, w: Bytes, t: Bytes)
    requires IsGap(g) && IsWord(w) && (w == [NUL] || t == [] || !InWord(t[0]))
    ensures Gaps(g + (w + t)) == [g] + Gaps(t) && Words(g + (w + t)) == [w] + Words(t)
  {
    GapIs(g, w + t);
    if w != [NUL] {
      PieceIs(w, t);
    }
    assert WordLength(w + t) == |w|;
    assert (w + t)[..|w|] == w && (w + t)[|w|..] == t;
  }

  /** And this is the only way to take it apart. */
  lemma {:induction false} WovenIsUnique(gs: seq<Bytes>, ws: seq<Bytes>)
    requires TakeTurns(gs, ws)
    ensures Gaps(Woven(gs, ws)) == gs && Words(Woven(gs, ws)) == ws
    decreases |ws|
  {
    if ws == [] {
      GapIs(gs[0], []);
      assert gs[0] + [] == gs[0] && gs == [gs[0]];
    } else {
      var g, w, gs', ws' := gs[0], ws[0], gs[1..], ws[1..];
      var t := Woven(gs', ws');
      assert gs == [g] + gs' && ws == [w] + ws' && Woven(gs, ws) == g + w + t == g + (w + t);
      NextStarts(gs', ws');
      assert w == [NUL] || t == [] || !InWord(t[0]);
      hide *;
      FirstWordIs(g, w, t);
      WovenIsUnique(gs', ws');
    }
  }

  lemma {:induction false} GapIs(g: Bytes, t: Bytes)
    requires IsGap(g) && (t == [] || !IsSpace(t[0]))
    ensures Gap(g + t) == g && Trimmed(g + t) == t
  {
    if g != [] {
      assert (g + t)[1..] == g[1..] + t;
      GapIs(g[1..], t);
      assert GapLength(g + t) == 1 + GapLength(g[1..] + t) == |g|;
    } else {
      assert g + t == t;
    }
  }

  lemma {:induction false} PieceIs(w: Bytes, t: Bytes)
    requires (forall i :: 0 <= i < |w| ==> InWord(w[i])) && (t == [] || !InWord(t[0]))
    ensures PieceLength(w + t) == |w|
  {
    if w != [] {
      assert (w + t)[1..] == w[1..] + t;
      PieceIs(w[1..], t);
    } else {
      assert w + t == t;
    }
  }

  /** How a text starts that is woven of these. */
  lemma NextStarts(gs: seq<Bytes>, ws: seq<Bytes>)
    requires TakeTurns(gs, ws)
    ensures var t := Woven(gs, ws);
      t == [] || (gs[0] != [] && IsSpace(t[0])) || (gs[0] == [] && ws != [] && t[0] == ws[0][0])
  {
  }

  // ---------- The words, by the values of the bytes ----------

  /** White space, by its values: space, tab, newline, vertical tab, form feed, return. */
  predicate Blank(b: Byte) {
    b == 32 || b == 9 || b == 10 || b == 11 || b == 12 || b == 13
  }

  ghost predicate OnlyBlanks(s: Bytes) {
    forall i :: 0 <= i < |s| ==> Blank(s[i])
  }

  /** The text without its white space, but for one space wherever there was some between two characters. */
  ghost function Bare(s: Bytes): Bytes {
    if s == [] then []
    else if Blank(s[0]) then Bare(s[1..])
    else
      var rest := Bare(s[1..]);
      [s[0]] + (if |s| > 1 && Blank(s[1]) && rest != [] then [32] else []) + rest
  }

  ghost predicate ZeroFree(s: Bytes) {
    forall i :: 0 <= i < |s| ==> s[i] != 0
  }

  ghost function Between(rest: Bytes): Bytes {
    if rest != [] && Blank(rest[0]) && Bare(rest) != [] then [32] else []
  }

  lemma {:induction false} BareGap(g: Bytes, t: Bytes)
    requires IsGap(g)
    ensures Bare(g + t) == Bare(t)
  {
    if g == [] {
      assert g + t == t;
    } else {
      assert (g + t)[1..] == g[1..] + t;
      BareGap(g[1..], t);
    }
  }

  lemma {:induction false} BareWord(w: Bytes, rest: Bytes)
    requires w != [] && forall i :: 0 <= i < |w| ==> !Blank(w[i])
    ensures Bare(w + rest) == w + (Between(rest) + Bare(rest))
  {
    var s := w + rest;
    assert s[1..] == w[1..] + rest;
    if |w| == 1 {
      assert s[1..] == rest && w == [s[0]];
    } else {
      BareWord(w[1..], rest);
      assert w == [w[0]] + w[1..];
    }
  }

  lemma BareFirst(s: Bytes) returns (w: Bytes, rest: Bytes)
    requires Trimmed(s) != []
    ensures IsWord(w) && |rest| < |s| && Words(s) == [w] + Words(rest)
    ensures Bare(s) == w + (Between(rest) + Bare(rest)) && s == Gap(s) + (w + rest)
    ensures Words(rest) != [] && Gap(rest) == [] ==> w == [NUL] || Words(rest)[0] == [NUL]
  {
    w, rest := FirstWord(s);
    GapIsGap(s);
    BareGap(Gap(s), w + rest);
    BareWord(w, rest);
  }

  /** Where there are no words there is nothing. */
  lemma {:induction false} BareEmpty(s: Bytes)
    ensures Bare(s) == [] <==> Trimmed(s) == []
    ensures Bare(s) != [] ==> Bare(s)[0] == Trimmed(s)[0]
  {
    GapStep(s);
    if s != [] && Blank(s[0]) {
      BareEmpty(s[1..]);
    }
  }

  lemma WordsBehindSpace(t: Bytes)
    ensures Words([32] + t) == Words(t)
  {
    GapStep([32] + t);
    assert ([32] + t)[1..] == t;
  }

  /** The words are still there. */
  lemma {:induction false} BareWords(s: Bytes)
    ensures Words(Bare(s)) == Words(s)
    decreases |s|
  {
    BareEmpty(s);
    if Trimmed(s) == [] {
      GapStep(Bare(s));
    } else {
      var w, rest := BareFirst(s);
      BareWords(rest);
      WordsBehindSpace(Bare(rest));
      BareEmpty(rest);
      var t := Between(rest) + Bare(rest);
      GapStep(rest);
      BareStarts(w, rest);
      FirstWordIs([], w, t);
      assert [] + (w + t) == Bare(s);
      assert Between(rest) == [] ==> t == Bare(rest);
    }
  }

  lemma BareStarts(w: Bytes, rest: Bytes)
    requires Words(rest) != [] && Gap(rest) == [] ==> w == [NUL] || Words(rest)[0] == [NUL]
    ensures var t := Between(rest) + Bare(rest); w == [NUL] || t == [] || !InWord(t[0])
  {
    BareEmpty(rest);
    FirstByte(rest);
    GapStep(rest);
    hide Words, Bare, GapLength, Gap, Trimmed;
  }

  lemma FirstByte(s: Bytes)
    ensures Words(s) != [] <==> Trimmed(s) != []
    ensures Words(s) != [] ==> Words(s)[0] != [] && Words(s)[0][0] == Trimmed(s)[0]
    ensures Gap(s) == [] ==> Trimmed(s) == s
  {
    hide GapLength, WordLength;
  }

  /** Words with one space between them. */
  ghost function Joined(ws: seq<Bytes>): Bytes {
    if ws == [] then [] else ws[0] + if |ws| == 1 then [] else [32] + Joined(ws[1..])
  }

  lemma ZeroFreeParts(g: Bytes, w: Bytes, rest: Bytes)
    requires ZeroFree(g + (w + rest)) && w != []
    ensures w != [NUL] && ZeroFree(rest)
  {
    var s := g + (w + rest);
    assert w[0] == s[|g|];
    assert forall i :: 0 <= i < |rest| ==> rest[i] == s[|g| + |w| + i];
  }

  /** In a text without zeros words are separated by white space. */
  lemma BetweenWords(w: Bytes, rest: Bytes)
    requires ZeroFree(rest) && w != [NUL]
    requires Words(rest) != [] && Gap(rest) == [] ==> w == [NUL] || Words(rest)[0] == [NUL]
    ensures Between(rest) == if Words(rest) == [] then [] else [32]
  {
    BareEmpty(rest);
    FirstByte(rest);
    GapStep(rest);
    hide Words, Bare, GapLength, Gap, Trimmed;
  }

  lemma {:induction false} BareIsJoined(s: Bytes)
    requires ZeroFree(s)
    ensures Bare(s) == Joined(Words(s))
    decreases |s|
  {
    BareEmpty(s);
    FirstByte(s);
    if Trimmed(s) != [] {
      var w, rest := BareFirst(s);
      ZeroFreeParts(Gap(s), w, rest);
      BareIsJoined(rest);
      BetweenWords(w, rest);
      BareEmpty(rest);
      FirstByte(rest);
      hide Words, Bare, GapLength, Gap, Trimmed, Between, ZeroFree;
      assert ([w] + Words(rest))[1..] == Words(rest);
    }
  }

  /** Texts that are the same but for the kind and amount of white space have the same words. */
  lemma BareDecides(a: Bytes, b: Bytes)
    ensures Bare(a) == Bare(b) ==> Words(a) == Words(b)
    ensures ZeroFree(a) && ZeroFree(b) ==> (Bare(a) == Bare(b) <==> Words(a) == Words(b))
  {
    BareWords(a);
    BareWords(b);
    if ZeroFree(a) && ZeroFree(b) {
      BareIsJoined(a);
      BareIsJoined(b);
    }
  }

  // ---------- The same, word by word ----------

  /** What a verdict becomes when there was a presentation error before. */
  function Worse(before: Verdict, v: Verdict): Verdict {
    if before == PresentationError && v == Accepted then PresentationError else v
  }

  /** The white space at the start of two texts agrees. */
  ghost predicate GapsAgree(s: Bytes, t: Bytes) {
    Agree(Gap(s), Gap(t), Trimmed(s) == [], Trimmed(t) == [])
  }

  ghost function GapVerdict(a: Bytes, b: Bytes): Verdict {
    if GapsAgree(a, b) then Accepted else PresentationError
  }

  ghost function Stepwise(a: Bytes, b: Bytes): Verdict
    decreases |a| + |b|
  {
    var u, w := Trimmed(a), Trimmed(b);
    if u == [] && w == [] then GapVerdict(a, b)
    else if u == [] || w == [] then WrongAnswer
    else if u[..WordLength(u)] != w[..WordLength(w)] then WrongAnswer
    else Worse(GapVerdict(a, b), Stepwise(u[WordLength(u)..], w[WordLength(w)..]))
  }

  lemma {:induction false} StepwiseIsJudgement(a: Bytes, b: Bytes)
    ensures Stepwise(a, b) == Judgement(a, b)
    decreases |a| + |b|
  {
    hide Agree, GapLength, WordLength;
    var u, w := Trimmed(a), Trimmed(b);
    if u != [] && w != [] {
      var a', b' := u[WordLength(u)..], w[WordLength(w)..];
      StepwiseIsJudgement(a', b');
      assert Words(a)[1..] == Words(a') && Words(b)[1..] == Words(b');
      assert Words(a) == Words(b) <==> u[..WordLength(u)] == w[..WordLength(w)] && Words(a') == Words(b');
      assert Gaps(a)[1..] == Gaps(a') && Gaps(b)[1..] == Gaps(b');
      assert Words(a) == Words(b) ==> |Gaps(a)| == |Gaps(b)| > 1;
    } else if u == w {
      assert Gaps(a) == [Gap(a)] && Gaps(b) == [Gap(b)];
      assert AllAgree(Gaps(a), Gaps(b)) == Agree(Gap(a), Gap(b), true, true);
    }
  }

  // ---------- In the middle of a word ----------

  /** The verdict when the two files have been read up to the same place in the same word. */
  ghost function Onward(s: Bytes, t: Bytes): Verdict {
    if Piece(s) != Piece(t) then WrongAnswer else Stepwise(Rest(s), Rest(t))
  }

  predicate Stops(s: Bytes) {
    s != [] && !InWord(s[0])
  }

  predicate Starts(s: Bytes) {
    s != [] ==> !IsSpace(s[0])
  }

  lemma OnwardStep(s: Bytes, t: Bytes)
    requires s != [] && t != [] && s[0] == t[0] && InWord(s[0])
    ensures Onward(s, t) == Onward(s[1..], t[1..])
  {
    hide Stepwise, PieceLength;
    PieceStep(s);
    PieceStep(t);
    assert Piece(s) == Piece(t) <==> Piece(s[1..]) == Piece(t[1..]) by {
      assert Piece(s[1..]) == Piece(s)[1..] && Piece(t[1..]) == Piece(t)[1..];
    }
  }

  lemma PieceStep(s: Bytes)
    requires s != [] && InWord(s[0])
    ensures Piece(s) == [s[0]] + Piece(s[1..]) && Rest(s) == Rest(s[1..])
  {
  }

  lemma OnwardDiffers(s: Bytes, t: Bytes)
    requires s != [] && t != [] && s[0] != t[0] && (InWord(s[0]) || InWord(t[0]))
    ensures Onward(s, t) == WrongAnswer
  {
    assert Piece(s) != [] ==> Piece(s)[0] == s[0];
    assert Piece(t) != [] ==> Piece(t)[0] == t[0];
  }

  /** Where both words end, or one of the files does, what remains decides. */
  lemma OnwardEnds(s: Bytes, t: Bytes)
    requires s == [] || t == [] || (Stops(s) && Stops(t))
    ensures Onward(s, t) == Stepwise(s, t)
  {
    if s == [] && t != [] && InWord(t[0]) {
      assert Piece(t)[0] == t[0] && Trimmed(t) == t;
    }
    if t == [] && s != [] && InWord(s[0]) {
      assert Piece(s)[0] == s[0] && Trimmed(s) == s;
    }
    assert Stops(s) ==> Rest(s) == s && Piece(s) == [];
    assert Stops(t) ==> Rest(t) == t && Piece(t) == [];
  }

  /** Where no white space is left, the words decide. */
  lemma OnwardStarts(s: Bytes, t: Bytes)
    requires Starts(s) && Starts(t)
    ensures Onward(s, t) == Stepwise(s, t)
  {
    if s != [] && t != [] && !(Stops(s) && Stops(t)) {
      assert Trimmed(s) == s && Trimmed(t) == t && Gap(s) == [] && Gap(t) == [];
      assert Piece(s) != [] ==> Piece(s)[0] == s[0];
      assert Piece(t) != [] ==> Piece(t)[0] == t[0];
      assert s[..WordLength(s)][0] == s[0] && t[..WordLength(t)][0] == t[0];
    } else {
      OnwardEnds(s, t);
    }
  }

  // ---------- The scanner ----------

  class Stream {
    const data: Bytes
    var pos: nat

    ghost predicate Valid()
      reads this
    {
      pos <= |data|
    }

    constructor (d: Bytes)
      ensures Valid() && data == d && pos == 0
    {
      data, pos := d, 0;
    }

    /** What is still to be read after the current character `c` has been. */
    ghost predicate Holds(c: int, s: Bytes)
      reads this
    {
      && Valid()
      && if s == [] then c == EOF && pos == |data| else c == s[0] && s[1..] == data[pos..]
    }

    method GetChar(ghost c: int, ghost s: Bytes) returns (r: int, ghost t: Bytes)
      requires Holds(c, s)
      modifies this
      ensures t == DropOne(s) && Holds(r, t)
    {
      t := DropOne(s);
      if pos < |data| {
        r, pos := data[pos], pos + 1;
      } else {
        r := EOF;
      }
    }
  }

  // ---------- Skipping white space in both files ----------

  lemma GapStep(s: Bytes)
    ensures s == [] || !IsSpace(s[0]) ==> Gap(s) == [] && Trimmed(s) == s
    ensures s != [] && IsSpace(s[0]) ==> Gap(s) == [s[0]] + Gap(s[1..]) && Trimmed(s) == Trimmed(s[1..])
  {
  }

  function Behind(s: Bytes): Bytes {
    if s != [] && IsSpace(s[0]) then s[1..] else s
  }

  lemma BehindGap(s: Bytes)
    ensures Trimmed(Behind(s)) == Trimmed(s) && Gap(Behind(s)) == DropOne(Gap(s))
  {
    GapStep(s);
  }

  /** What is read in one round of the skipping, and whether it is an error. */
  ghost function Round(s: Bytes, t: Bytes): (Bytes, Bytes, bool)
    requires s != [] && t != []
  {
    if s[0] == t[0] then (Behind(s), Behind(t), false)
    else if s[0] == CR && t[0] == LF then (Behind(s[1..]), Behind(t), false)
    else if t[0] == CR && s[0] == LF then (Behind(s), Behind(t[1..]), false)
    else (Behind(s), Behind(t), true)
  }

  lemma RoundAgrees(s: Bytes, t: Bytes)
    requires s != [] && t != [] && (IsSpace(s[0]) || IsSpace(t[0]))
    ensures var (s', t', bad) := Round(s, t);
      && Trimmed(s') == Trimmed(s) && Trimmed(t') == Trimmed(t) && |s'| + |t'| < |s| + |t|
      && GapsAgree(s, t) == (!bad && GapsAgree(s', t'))
  {
    hide GapLength;
    GapStep(s);
    GapStep(t);
    BehindGap(s[1..]);
    BehindGap(t[1..]);
    BehindGap(s);
    BehindGap(t);
  }

  /** Reads up to the next character that is no white space; reads at least one character. */
  method SkipSpaces(f: Stream, c: int, ghost s: Bytes) returns (d: int, ghost s': Bytes)
    requires f.Holds(c, s) && IsSpace(c)
    modifies f
    ensures s' == Trimmed(s) && f.Holds(d, s')
  {
    GapStep(s);
    d, s' := f.GetChar(c, s);
    while IsSpace(d)
      invariant f.Holds(d, s') && Trimmed(s') == Trimmed(s)
      decreases |s'|
    {
      GapStep(s');
      d, s' := f.GetChar(d, s');
    }
    GapStep(s');
  }

  /** Reads one character if the current one is white space. */
  method Advance(f: Stream, c: int, ghost s: Bytes) returns (d: int, ghost s': Bytes)
    requires f.Holds(c, s)
    modifies f
    ensures s' == Behind(s) && f.Holds(d, s')
  {
    d, s' := c, s;
    if IsSpace(c) {
      d, s' := f.GetChar(c, s);
    }
  }

  /** One round of the skipping: compares two characters of which one is white space at least, and reads on. */
  method SkipRound(c1: int, c2: int, f1: Stream, f2: Stream, ret: Verdict, ghost s: Bytes, ghost t: Bytes)
    returns (d1: int, d2: int, v: Verdict, ghost s': Bytes, ghost t': Bytes, ghost bad: bool)
    requires f1 != f2 && f1.Holds(c1, s) && f2.Holds(c2, t) && (IsSpace(c1) || IsSpace(c2))
    modifies f1, f2
    ensures f1.Holds(d1, s') && f2.Holds(d2, t') && |s'| + |t'| < |s| + |t|
    ensures Trimmed(s') == Trimmed(s) && Trimmed(t') == Trimmed(t)
    ensures v == if bad then PresentationError else ret
    ensures GapsAgree(s, t) == (!bad && GapsAgree(s', t'))
  {
    hide GapLength, Gap, GapsAgree, Trimmed, Agree;
    d1, d2, v, s', t', bad := c1, c2, ret, s, t, false;
    if d1 != d2 {
      if d2 == EOF {
        EndAgrees(s, t);
        d1, s' := SkipSpaces(f1, d1, s');
        return;
      } else if d1 == EOF {
        EndAgrees(t, s);
        d2, t' := SkipSpaces(f2, d2, t');
        return;
      }
    }
    RoundAgrees(s, t);
    if d1 != d2 {
      if d1 == CR && d2 == LF {
        d1, s' := f1.GetChar(d1, s');
      } else if d2 == CR && d1 == LF {
        d2, t' := f2.GetChar(d2, t');
      } else {
        v, bad := PresentationError, true;
      }
    }
    d1, s' := Advance(f1, d1, s');
    d2, t' := Advance(f2, d2, t');
    assert (s', t', bad) == Round(s, t);
  }

  /** Skips the white space in both files, and notes whether it differs. */
  method FindNextNonspace(c1: int, c2: int, f1: Stream, f2: Stream, ret: Verdict, ghost s: Bytes, ghost t: Bytes)
    returns (d1: int, d2: int, v: Verdict, ghost s': Bytes, ghost t': Bytes)
    requires f1 != f2 && f1.Holds(c1, s) && f2.Holds(c2, t)
    modifies f1, f2
    ensures s' == Trimmed(s) && t' == Trimmed(t) && f1.Holds(d1, s') && f2.Holds(d2, t')
    ensures v == if GapsAgree(s, t) then ret else PresentationError
  {
    hide GapLength, Gap, GapsAgree, Trimmed;
    d1, d2, v, s', t' := c1, c2, ret, s, t;
    ghost var bad := false;
    while IsSpace(d1) || IsSpace(d2)
      invariant f1.Holds(d1, s') && f2.Holds(d2, t')
      invariant Trimmed(s') == Trimmed(s) && Trimmed(t') == Trimmed(t)
      invariant v == if bad then PresentationError else ret
      invariant GapsAgree(s, t) == (!bad && GapsAgree(s', t'))
      decreases |s'| + |t'|
    {
      ghost var now;
      d1, d2, v, s', t', now := SkipRound(d1, d2, f1, f2, v, s', t');
      bad := bad || now;
    }
    GapStep(s');
    GapStep(t');
    NoGapsLeft(s', t');
  }

  lemma NoGapsLeft(s: Bytes, t: Bytes)
    requires Gap(s) == [] && Gap(t) == []
    ensures GapsAgree(s, t)
  {
  }

  /** At the end of one file, white space in the other does not matter. */
  lemma EndAgrees(s: Bytes, t: Bytes)
    requires t == []
    ensures GapsAgree(s, t) && GapsAgree(Trimmed(s), t) && GapsAgree(t, s) && GapsAgree(t, Trimmed(s))
    ensures Trimmed(Trimmed(s)) == Trimmed(s)
    ensures |Trimmed(s)| <= |s| && (s != [] && IsSpace(s[0]) ==> |Trimmed(s)| < |s|)
  {
    GapStep(s);
    GapStep(t);
    GapStep(Trimmed(s));
  }

  // ---------- The comparison ----------

  /** Skipping the white space passes its verdict on. */
  lemma SkippedGap(s: Bytes, t: Bytes, ret: Verdict, v: Verdict)
    requires v == if GapsAgree(s, t) then ret else PresentationError
    requires ret == Accepted || ret == PresentationError
    ensures Worse(ret, Stepwise(s, t)) == Worse(v, Stepwise(Trimmed(s), Trimmed(t)))
    ensures Starts(Trimmed(s)) && Starts(Trimmed(t))
  {
    hide GapLength, Agree, WordLength;
    var u, w := Trimmed(s), Trimmed(t);
    GapStep(u);
    GapStep(w);
    NoGaps(u == [], w == []);
  }

  lemma NoGaps(end1: bool, end2: bool)
    ensures Agree([], [], end1, end2)
  {
  }

  /** Reads both files as long as they are in the same word. */
  method ReadWord(c1: int, c2: int, f1: Stream, f2: Stream, ghost s: Bytes, ghost t: Bytes)
    returns (d1: int, d2: int, differs: bool, ghost s': Bytes, ghost t': Bytes)
    requires f1 != f2 && f1.Holds(c1, s) && f2.Holds(c2, t)
    modifies f1, f2
    ensures f1.Holds(d1, s') && f2.Holds(d2, t')
    ensures differs ==> Onward(s, t) == WrongAnswer
    ensures !differs ==> Onward(s, t) == Stepwise(s', t')
    ensures !differs ==> s' == [] || t' == [] || (Stops(s') && Stops(t'))
    ensures (s' == s && t' == t) || |s'| + |t'| < |s| + |t|
  {
    hide Onward, Stepwise;
    d1, d2, differs, s', t' := c1, c2, false, s, t;
    while InWord(d1) || InWord(d2)
      invariant f1.Holds(d1, s') && f2.Holds(d2, t')
      invariant Onward(s, t) == Onward(s', t')
      invariant (s' == s && t' == t) || |s'| + |t'| < |s| + |t|
      decreases |s'| + |t'|
    {
      if d1 == EOF || d2 == EOF {
        break;
      }
      if d1 != d2 {
        OnwardDiffers(s', t');
        differs := true;
        return;
      }
      OnwardStep(s', t');
      d1, s' := f1.GetChar(d1, s');
      d2, t' := f2.GetChar(d2, t');
    }
    OnwardEnds(s', t');
  }

  /** Compares the files from the current word up to a NUL in both of them, or to the end. */
  method CompareWords(c1: int, c2: int, f1: Stream, f2: Stream, ret: Verdict, ghost s: Bytes, ghost t: Bytes)
    returns (done: bool, d1: int, d2: int, v: Verdict, ghost s': Bytes, ghost t': Bytes)
    requires f1 != f2 && f1.Holds(c1, s) && f2.Holds(c2, t) && Starts(s) && Starts(t)
    requires ret == Accepted || ret == PresentationError
    modifies f1, f2
    ensures done ==> v == Worse(ret, Stepwise(s, t))
    ensures !done ==> f1.Holds(d1, s') && f2.Holds(d2, t') && s' != [] && t' != [] && |s'| + |t'| <= |s| + |t|
    ensures !done ==> (v == Accepted || v == PresentationError)
                      && Worse(v, Stepwise(s'[1..], t'[1..])) == Worse(ret, Stepwise(s, t))
  {
    hide Stepwise, Onward, GapsAgree;
    d1, d2, v, s', t' := c1, c2, ret, s, t;
    while true
      invariant f1.Holds(d1, s') && f2.Holds(d2, t') && Starts(s') && Starts(t')
      invariant v == Accepted || v == PresentationError
      invariant Worse(v, Stepwise(s', t')) == Worse(ret, Stepwise(s, t))
      invariant |s'| + |t'| <= |s| + |t|
      decreases |s'| + |t'|
    {
      OnwardStarts(s', t');
      ghost var s0, t0 := s', t';
      var differs;
      d1, d2, differs, s', t' := ReadWord(d1, d2, f1, f2, s', t');
      if differs {
        done, v := true, WrongAnswer;
        return;
      }
      GapStep(s');
      GapStep(t');
      ghost var s1, t1, before := s', t', v;
      d1, d2, v, s', t' := FindNextNonspace(d1, d2, f1, f2, v, s', t');
      SkippedGap(s1, t1, before, v);
      if d1 == EOF && d2 == EOF {
        NothingLeft();
        done := true;
        return;
      }
      if d1 == EOF || d2 == EOF {
        OneLeft(s', t');
        done, v := true, WrongAnswer;
        return;
      }
      if (d1 == LF || d1 == NUL) && (d2 == LF || d2 == NUL) {
        SkipNul(s', t');
        done := false;
        return;
      }
    }
  }

  lemma NothingLeft()
    ensures Stepwise([], []) == Accepted
  {
  }

  lemma OneLeft(s: Bytes, t: Bytes)
    requires Starts(s) && Starts(t) && (s == []) != (t == [])
    ensures Stepwise(s, t) == WrongAnswer
  {
  }

  lemma SkipNul(s: Bytes, t: Bytes)
    requires s != [] && t != [] && s[0] == NUL == t[0]
    ensures Stepwise(s, t) == Stepwise(s[1..], t[1..])
  {
    assert Trimmed(s) == s && Trimmed(t) == t;
  }

  datatype File = Missing | Present(content: Bytes)

  /** What the verdict means in terms of the bytes of the two files. */
  ghost predicate Means(ret: Verdict, a: Bytes, b: Bytes) {
    && ret != RuntimeError
    && (Bare(a) == Bare(b) ==> ret != WrongAnswer)
    && (ZeroFree(a) && ZeroFree(b) && Bare(a) != Bare(b) ==> ret == WrongAnswer)
    && (Paired(a) && Paired(b) ==> (ret == Accepted <==> SameButTail(Folded(a), Folded(b))))
  }

  /** The verdict on the output in one file, when the other holds what was expected. */
  method Compare(file1: File, file2: File) returns (ret: Verdict)
    ensures file1.Missing? || file2.Missing? ==> ret == RuntimeError
    ensures file1.Present? && file2.Present? ==>
      && ret == Judgement(file1.content, file2.content)
      && (ret == WrongAnswer <==> Words(file1.content) != Words(file2.content))
      && Means(ret, file1.content, file2.content)
  {
    if file1.Missing? || file2.Missing? {
      return RuntimeError;
    }
    StepwiseIsJudgement(file1.content, file2.content);
    JudgementMeans(file1.content, file2.content);
    hide Means;
    var f1 := new Stream(file1.content);
    var f2 := new Stream(file2.content);
    ret := CompareStreams(f1, f2);
  }

  /** Compares two streams that have just been opened. */
  method CompareStreams(f1: Stream, f2: Stream) returns (ret: Verdict)
    requires f1 != f2 && f1.pos == 0 == f2.pos
    modifies f1, f2
    ensures ret == Stepwise(f1.data, f2.data)
  {
    hide Stepwise, GapsAgree, Trimmed, GapLength, Gap;
    ret := Accepted;
    var c1, c2 := NUL, NUL;
    ghost var s: Bytes, t: Bytes := [NUL] + f1.data, [NUL] + f2.data;
    assert s[1..] == f1.data && t[1..] == f2.data;
    while true
      invariant f1.Holds(c1, s) && f2.Holds(c2, t) && s != [] && t != []
      invariant ret == Accepted || ret == PresentationError
      invariant Worse(ret, Stepwise(s[1..], t[1..])) == Stepwise(f1.data, f2.data)
      decreases |s| + |t|
    {
      c1, s := f1.GetChar(c1, s);
      c2, t := f2.GetChar(c2, t);
      var done;
      done, c1, c2, ret, s, t := CompareRecord(c1, c2, f1, f2, ret, s, t);
      if done {
        return;
      }
    }
  }

  /** Compares the files up to a NUL in both of them, or to the end. */
  method CompareRecord(c1: int, c2: int, f1: Stream, f2: Stream, ret: Verdict, ghost s: Bytes, ghost t: Bytes)
    returns (done: bool, d1: int, d2: int, v: Verdict, ghost s': Bytes, ghost t': Bytes)
    requires f1 != f2 && f1.Holds(c1, s) && f2.Holds(c2, t)
    requires ret == Accepted || ret == PresentationError
    modifies f1, f2
    ensures done ==> v == Worse(ret, Stepwise(s, t))
    ensures !done ==> f1.Holds(d1, s') && f2.Holds(d2, t') && s' != [] && t' != [] && |s'| + |t'| <= |s| + |t|
    ensures !done ==> (v == Accepted || v == PresentationError)
                      && Worse(v, Stepwise(s'[1..], t'[1..])) == Worse(ret, Stepwise(s, t))
  {
    hide Stepwise, GapsAgree, GapLength;
    d1, d2, v, s', t' := FindNextNonspace(c1, c2, f1, f2, ret, s, t);
    SkippedGap(s, t, ret, v);
    done, d1, d2, v, s', t' := CompareWords(d1, d2, f1, f2, v, s', t');
  }

  // ---------- Properties of the verdict ----------

  /** An answer is wrong exactly if the words differ. */
  lemma WrongIffWordsDiffer(a: Bytes, b: Bytes)
    ensures Judgement(a, b) == WrongAnswer <==> Words(a) != Words(b)
    ensures Judgement(a, b) != RuntimeError
  {
  }

  lemma {:induction false} AgreeReflexive(g: Bytes, end1: bool, end2: bool)
    ensures Agree(g, g, end1, end2)
  {
    if g != [] {
      AgreeReflexive(g[1..], end1, end2);
    }
  }

  lemma {:induction false} AllAgreeReflexive(gs: seq<Bytes>)
    ensures AllAgree(gs, gs)
  {
    if gs != [] {
      AgreeReflexive(gs[0], |gs| == 1, |gs| == 1);
      AllAgreeReflexive(gs[1..]);
    }
  }

  /** What is exactly as expected is accepted. */
  lemma JudgementReflexive(a: Bytes)
    ensures Judgement(a, a) == Accepted
  {
    AllAgreeReflexive(Gaps(a));
  }

  lemma {:induction false} AgreeSymmetric(g: Bytes, h: Bytes, end1: bool, end2: bool)
    ensures Agree(g, h, end1, end2) == Agree(h, g, end2, end1)
    decreases |g| + |h|
  {
    if g != [] && h != [] {
      AgreeSymmetric(g[1..], h[1..], end1, end2);
      AgreeSymmetric(DropOne(g[1..]), h[1..], end1, end2);
      AgreeSymmetric(g[1..], DropOne(h[1..]), end1, end2);
    }
  }

  lemma {:induction false} AllAgreeSymmetric(gs: seq<Bytes>, hs: seq<Bytes>)
    requires |gs| == |hs|
    ensures AllAgree(gs, hs) == AllAgree(hs, gs)
  {
    if gs != [] {
      AgreeSymmetric(gs[0], hs[0], |gs| == 1, |gs| == 1);
      AllAgreeSymmetric(gs[1..], hs[1..]);
    }
  }

  /** It does not matter which of the two files is which. */
  lemma JudgementSymmetric(a: Bytes, b: Bytes)
    ensures Judgement(a, b) == Judgement(b, a)
  {
    if Words(a) == Words(b) {
      AllAgreeSymmetric(Gaps(a), Gaps(b));
    }
  }

  // ---------- Line ends ----------

  /** The text with every return in front of a newline left out. */
  ghost function Folded(s: Bytes): Bytes {
    if s == [] then []
    else if |s| >= 2 && s[0] == 13 && s[1] == 10 then Folded(s[1..])
    else [s[0]] + Folded(s[1..])
  }

  ghost predicate AllSpace(s: Bytes) {
    GapLength(s) == |s|
  }

  lemma {:induction false} BlanksAreSpace(s: Bytes)
    ensures AllSpace(s) <==> OnlyBlanks(s)
  {
    if s != [] {
      BlanksAreSpace(s[1..]);
      assert forall i :: 0 < i < |s| ==> s[i] == s[1..][i - 1];
    }
  }

  lemma {:induction false} FoldedGap(s: Bytes)
    ensures Folded(Gap(s)) == Gap(Folded(s)) && Folded(Trimmed(s)) == Trimmed(Folded(s))
  {
    GapStep(s);
    GapStep(Folded(s));
    if s != [] && IsSpace(s[0]) {
      FoldedGap(s[1..]);
      GapStep(s[1..]);
      if |s| >= 2 && s[0] == CR && s[1] == LF {
        assert Gap(s)[1..] == Gap(s[1..]);
      } else {
        assert Gap(s)[1..] == Gap(s[1..]) && Folded(s)[1..] == Folded(s[1..]);
      }
    }
  }

  lemma {:induction false} FoldedPiece(s: Bytes)
    ensures PieceLength(Folded(s)) == PieceLength(s)
    ensures Piece(Folded(s)) == Piece(s) && Rest(Folded(s)) == Folded(Rest(s))
  {
    if s != [] && InWord(s[0]) {
      FoldedPiece(s[1..]);
      PieceStep(s);
      assert Folded(s)[1..] == Folded(s[1..]);
      PieceStep(Folded(s));
    } else if |s| >= 2 && s[0] == CR && s[1] == LF {
      FoldedPiece(s[1..]);
    }
  }

  lemma FoldedWord(u: Bytes)
    requires u != [] && !IsSpace(u[0])
    ensures Folded(u) != [] && Folded(u)[0] == u[0] && WordLength(Folded(u)) == WordLength(u)
    ensures Folded(u)[..WordLength(u)] == u[..WordLength(u)]
    ensures Folded(u)[WordLength(u)..] == Folded(u[WordLength(u)..])
  {
    FoldedPiece(u);
    assert Folded(u)[1..] == Folded(u[1..]);
  }

  lemma {:induction false} GapExtended(s: Bytes, extra: Bytes)
    requires AllSpace(extra)
    ensures Trimmed(s) == [] ==> AllSpace(s + extra)
    ensures Trimmed(s) != [] ==> Gap(s + extra) == Gap(s) && Trimmed(s + extra) == Trimmed(s) + extra
  {
    if s == [] {
      assert s + extra == extra;
    } else {
      assert (s + extra)[1..] == s[1..] + extra;
      GapExtended(s[1..], extra);
      GapStep(s);
      GapStep(s + extra);
    }
  }

  lemma {:induction false} PieceExtended(s: Bytes, extra: Bytes)
    requires AllSpace(extra)
    ensures PieceLength(s + extra) == PieceLength(s)
  {
    if s == [] {
      assert s + extra == extra;
    } else {
      assert (s + extra)[1..] == s[1..] + extra;
      PieceExtended(s[1..], extra);
    }
  }

  /** White space that is the same but for folding agrees; at the end one side may be longer. */
  lemma {:induction false} FoldedAgree(g: Bytes, h: Bytes, extra: Bytes, atEnd: bool)
    requires Folded(g) == Folded(h) + extra && (atEnd || extra == [])
    ensures Agree(g, h, atEnd, atEnd)
    decreases |g| + |h|
  {
    hide Folded;
    FoldedEmpty(g);
    FoldedEmpty(h);
    if g != [] && h != [] {
      FoldedHead(g);
      FoldedHead(h);
      var f := Folded(h);
      assert Folded(g)[0] == f[0];
      assert Folded(g)[1..] == f[1..] + extra;
      if g[0] == h[0] {
        FoldedTail(g, h, extra);
        FoldedAgree(g[1..], h[1..], extra, atEnd);
      } else if g[0] == CR {
        FoldedHead(g[1..]);
        assert g[1..][1..] == g[2..] && DropOne(g[1..]) == g[2..];
        FoldedAgree(g[2..], h[1..], extra, atEnd);
      } else {
        FoldedHead(h[1..]);
        assert h[1..][1..] == h[2..] && DropOne(h[1..]) == h[2..];
        FoldedAgree(g[1..], h[2..], extra, atEnd);
      }
    }
  }

  predicate StartsCrLf(s: Bytes) {
    |s| >= 2 && s[0] == 13 && s[1] == 10
  }

  lemma FoldedHead(s: Bytes)
    requires s != []
    ensures Folded(s) != [] && Folded(s)[0] == if StartsCrLf(s) then LF else s[0]
    ensures StartsCrLf(s) ==> s[0] == CR
    ensures Folded(s[1..]) == if StartsCrLf(s) then Folded(s) else Folded(s)[1..]
  {
    if StartsCrLf(s) {
      assert Folded(s) == Folded(s[1..]);
    } else {
      assert Folded(s) == [s[0]] + Folded(s[1..]);
    }
  }

  lemma FoldedTail(g: Bytes, h: Bytes, extra: Bytes)
    requires g != [] && h != [] && g[0] == h[0] && Folded(g) == Folded(h) + extra
    ensures Folded(g[1..]) == Folded(h[1..]) + extra
  {
    hide Folded, StartsCrLf;
    FoldedHead(g);
    FoldedHead(h);
    TailOfBoth(Folded(h), extra);
    assert StartsCrLf(g) == StartsCrLf(h);
  }

  lemma TailOfBoth(f: Bytes, extra: Bytes)
    requires f != []
    ensures (f + extra)[0] == f[0] && (f + extra)[1..] == f[1..] + extra
  {
  }

  /**
    Line ends of either kind are equivalent, and white space at the end does not count: files that
    agree up to these are accepted.
   */
  lemma {:induction false} FoldedIsAccepted(a: Bytes, b: Bytes, extra: Bytes)
    requires OnlyBlanks(extra) && Folded(a) == Folded(b) + extra
    ensures Stepwise(a, b) == Accepted
    ensures Judgement(a, b) == Accepted && Judgement(b, a) == Accepted
    decreases |a| + |b|
  {
    BlanksAreSpace(extra);
    FoldedStep(a, b, extra);
    var u, w := Trimmed(a), Trimmed(b);
    if w != [] {
      FoldedIsAccepted(u[WordLength(u)..], w[WordLength(w)..], extra);
    }
    StepwiseIsJudgement(a, b);
    JudgementSymmetric(a, b);
  }

  lemma FoldedStep(a: Bytes, b: Bytes, extra: Bytes)
    requires AllSpace(extra) && Folded(a) == Folded(b) + extra
    ensures var u, w := Trimmed(a), Trimmed(b);
      && (u == [] <==> w == [])
      && GapVerdict(a, b) == Accepted
      && (u != [] ==>
            && u[..WordLength(u)] == w[..WordLength(w)]
            && Folded(u[WordLength(u)..]) == Folded(w[WordLength(w)..]) + extra)
  {
    hide Agree, GapLength, Folded, WordLength;
    var u, w := Trimmed(a), Trimmed(b);
    FoldedGap(a);
    FoldedGap(b);
    FoldedEmpty(u);
    FoldedEmpty(w);
    GapExtended(Folded(b), extra);
    assert a == Gap(a) + u && b == Gap(b) + w;
    if w == [] {
      FoldedAgree(Gap(a), Gap(b), extra, true);
    } else {
      FoldedAgree(Gap(a), Gap(b), [], false);
      FoldedWords(u, w, extra);
    }
  }

  lemma FoldedEmpty(s: Bytes)
    ensures Folded(s) == [] <==> s == []
  {
  }

  lemma FoldedWords(u: Bytes, w: Bytes, extra: Bytes)
    requires u != [] && w != [] && !IsSpace(u[0]) && !IsSpace(w[0])
    requires AllSpace(extra) && Folded(u) == Folded(w) + extra
    ensures u[..WordLength(u)] == w[..WordLength(w)]
    ensures Folded(u[WordLength(u)..]) == Folded(w[WordLength(w)..]) + extra
  {
    hide Folded, GapLength;
    FoldedWord(u);
    FoldedWord(w);
    PieceExtended(Folded(w), extra);
    var n := WordLength(w);
    assert WordLength(Folded(w) + extra) == n;
    assert (Folded(w) + extra)[..n] == Folded(w)[..n] && (Folded(w) + extra)[n..] == Folded(w)[n..] + extra;
  }

  // ---------- What is accepted ----------

  /** Every return is part of a line end of two characters. */
  ghost predicate Paired(s: Bytes) {
    forall i :: 0 <= i < |s| && s[i] == 13 ==> i + 1 < |s| && s[i + 1] == 10
  }

  /** One of the texts is the other one and more white space. */
  ghost predicate SameButTail(s: Bytes, t: Bytes) {
    (t <= s && OnlyBlanks(s[|t|..])) || (s <= t && OnlyBlanks(t[|s|..]))
  }

  lemma SameBehind(p: Bytes, s: Bytes, t: Bytes)
    requires SameButTail(s, t)
    ensures SameButTail(p + s, p + t)
  {
    assert t <= s ==> p + t <= p + s && (p + s)[|p + t|..] == s[|t|..];
    assert s <= t ==> p + s <= p + t && (p + t)[|p + s|..] == t[|s|..];
  }

  lemma FoldedSpace(g: Bytes)
    requires AllSpace(g)
    ensures AllSpace(Folded(g)) && SameButTail(Folded(g), []) && SameButTail([], Folded(g))
  {
    FoldedGap(g);
    BlanksAreSpace(Folded(g));
    assert Gap(g) == g;
    assert Folded(g)[0..] == Folded(g);
  }

  /** A text without its first character, or its first line end. */
  function Shorter(g: Bytes): (r: Bytes)
    requires g != []
    ensures |r| < |g|
  {
    if StartsCrLf(g) then g[2..] else g[1..]
  }

  lemma SpaceHead(g: Bytes)
    requires g != [] && Paired(g) && AllSpace(g)
    ensures Paired(Shorter(g)) && AllSpace(Shorter(g)) && (g[0] == CR ==> StartsCrLf(g))
    ensures Folded(g) == [if g[0] == CR then LF else g[0]] + Folded(Shorter(g))
  {
    assert forall i :: 0 <= i < |g[1..]| ==> g[1..][i] == g[i + 1];
    if StartsCrLf(g) {
      assert g[1..][1..] == g[2..];
      assert Folded(g) == Folded(g[1..]);
    }
  }

  lemma AgreeShorter(g: Bytes, h: Bytes, end1: bool, end2: bool)
    requires g != [] && h != [] && Agree(g, h, end1, end2)
    requires (g[0] == CR ==> StartsCrLf(g)) && (h[0] == CR ==> StartsCrLf(h))
    ensures Agree(Shorter(g), Shorter(h), end1, end2)
    ensures (if g[0] == CR then LF else g[0]) == (if h[0] == CR then LF else h[0])
  {
    if g[0] == CR {
      assert DropOne(g[1..]) == g[2..] && g[1..][0] == LF;
    }
    if h[0] == CR {
      assert DropOne(h[1..]) == h[2..] && h[1..][0] == LF;
    }
  }

  /** White space that agrees is the same but for folding; at the end one side may be longer. */
  lemma {:induction false} AgreeFolds(g: Bytes, h: Bytes, atEnd: bool)
    requires Agree(g, h, atEnd, atEnd) && Paired(g) && Paired(h) && AllSpace(g) && AllSpace(h)
    ensures if atEnd then SameButTail(Folded(g), Folded(h)) else Folded(g) == Folded(h)
    decreases |g| + |h|
  {
    hide Folded, AllSpace, Shorter, SameButTail, Paired, StartsCrLf;
    FoldedEmpty(g);
    FoldedEmpty(h);
    if g == [] || h == [] {
      FoldedSpace(g);
      FoldedSpace(h);
    } else {
      SpaceHead(g);
      SpaceHead(h);
      AgreeShorter(g, h, atEnd, atEnd);
      hide Agree;
      AgreeFolds(Shorter(g), Shorter(h), atEnd);
      if atEnd {
        SameBehind([if g[0] == CR then LF else g[0]], Folded(Shorter(g)), Folded(Shorter(h)));
      }
    }
  }

  /** Folding a text part by part, where no line end is cut. */
  lemma {:induction false} FoldedParts(s: Bytes, t: Bytes)
    requires s == [] || t == [] || s[|s| - 1] != CR || t[0] != LF
    ensures Folded(s + t) == Folded(s) + Folded(t)
  {
    if s == [] {
      assert s + t == t;
    } else {
      assert (s + t)[1..] == s[1..] + t;
      FoldedParts(s[1..], t);
      assert StartsCrLf(s + t) == StartsCrLf(s);
    }
  }

  lemma {:induction false} WordUnfolded(w: Bytes)
    requires IsWord(w)
    ensures Folded(w) == w && w[0] != LF && w[|w| - 1] != CR
  {
    if |w| > 1 {
      assert IsWord(w[1..]);
      WordUnfolded(w[1..]);
      assert w == [w[0]] + w[1..];
    }
  }

  /** The parts of a text whose returns are paired. */
  lemma PairedParts(s: Bytes)
    requires Paired(s)
    ensures Paired(Gap(s)) && AllSpace(Gap(s)) && Paired(Trimmed(s))
    ensures Trimmed(s) != [] ==> Paired(Trimmed(s)[WordLength(Trimmed(s))..])
  {
    GapIsGap(s);
    GapIs(Gap(s), []);
    assert Gap(s) + [] == Gap(s);
    PairedTail(s, GapLength(s));
    if Trimmed(s) != [] {
      PairedTail(Trimmed(s), WordLength(Trimmed(s)));
    }
    var n := GapLength(s);
    hide GapLength, WordLength;
    forall i | 0 <= i < n && s[i] == CR ensures i + 1 < n && s[i + 1] == LF {
      assert s[i + 1] == LF;
    }
    assert forall i :: 0 <= i < n ==> Gap(s)[i] == s[i];
  }

  lemma PairedTail(s: Bytes, n: nat)
    requires Paired(s) && n <= |s|
    ensures Paired(s[n..])
  {
  }

  lemma FoldedWhole(s: Bytes) returns (w: Bytes, rest: Bytes)
    requires Paired(s) && Trimmed(s) != []
    ensures w == Trimmed(s)[..WordLength(Trimmed(s))] && rest == Trimmed(s)[WordLength(Trimmed(s))..]
    ensures |rest| < |s| && Paired(rest) && Folded(s) == Folded(Gap(s)) + w + Folded(rest)
  {
    var u := Trimmed(s);
    w, rest := u[..WordLength(u)], u[WordLength(u)..];
    PairedParts(s);
    GapIsGap(s);
    WordIsWord(u);
    WordUnfolded(w);
    hide Folded, GapLength, WordLength, IsWord, Words, Paired;
    FoldedParts(w, rest);
    FoldedParts(Gap(s), w + rest);
  }

  lemma {:induction false} AcceptedFolds(a: Bytes, b: Bytes)
    requires Paired(a) && Paired(b) && Stepwise(a, b) == Accepted
    ensures SameButTail(Folded(a), Folded(b))
    decreases |a| + |b|
  {
    hide Paired, Folded, SameButTail, Agree, GapLength, WordLength;
    if Trimmed(a) == [] {
      PairedParts(a);
      PairedParts(b);
      GapIsGap(a);
      GapIsGap(b);
      AgreeFolds(Gap(a), Gap(b), true);
      assert Gap(a) == a && Gap(b) == b;
    } else {
      var u, a' := FoldedWhole(a);
      var w, b' := FoldedWhole(b);
      PairedParts(a);
      PairedParts(b);
      AgreeFolds(Gap(a), Gap(b), false);
      AcceptedFolds(a', b');
      SameBehind(Folded(Gap(a)) + u, Folded(a'), Folded(b'));
    }
  }

  /**
    Texts in which every return is part of a line end are accepted if and only if they are the same
    after folding, up to white space at the end of one of them.
   */
  lemma AcceptedIffSameLines(a: Bytes, b: Bytes)
    requires Paired(a) && Paired(b)
    ensures Judgement(a, b) == Accepted <==> SameButTail(Folded(a), Folded(b))
  {
    hide Folded, Paired, OnlyBlanks;
    var f, g := Folded(a), Folded(b);
    if Judgement(a, b) == Accepted {
      StepwiseIsJudgement(a, b);
      AcceptedFolds(a, b);
    }
    if g <= f && OnlyBlanks(f[|g|..]) {
      FoldedIsAccepted(a, b, f[|g|..]);
    }
    if f <= g && OnlyBlanks(g[|f|..]) {
      FoldedIsAccepted(b, a, g[|f|..]);
    }
  }

  /** The verdict in terms of bytes. */
  lemma JudgementMeans(a: Bytes, b: Bytes)
    ensures Means(Judgement(a, b), a, b)
  {
    BareDecides(a, b);
    if Paired(a) && Paired(b) {
      AcceptedIffSameLines(a, b);
    }
    hide Words, Gaps, AllAgree, Bare, ZeroFree, Paired, SameButTail, Folded;
  }
}
