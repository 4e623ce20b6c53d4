/**
  The language department of the similarity tester: which tokens may start a run, and how much
  of a run's tail has to be cut before it is acceptable.
 */
module Language {
  import opened Tokens

  /** A token set as a table: entry `t` is 0, or one plus the position of `t` in the set. */
  type Table = s: seq<int> | IsTable(s) witness seq(REGULAR_TOKENS, _ => 0)

  predicate IsTable(s: seq<int>) {
    |s| == REGULAR_TOKENS && forall i :: 0 <= i < |s| ==> 0 <= s[i] < 128
  }

  /** `Plain` accepts every run; `Algol` has the four token sets, and the -f option. */
  datatype Language =
    | Plain
    | Algol(nonFinals: Table, nonInitials: Table, openers: Table, closers: Table, routinesOnly: bool)

  function PosInSet(set_: Table, tk: Token): nat {
    if tk < REGULAR_TOKENS then set_[tk] else 0
  }

  predicate MayStartRun(lang: Language, tk: Token) {
    lang.Algol? ==> PosInSet(lang.nonInitials, tk) == 0
  }

  // ---------- Building the tables ----------

  /** The position of the last occurrence of a token, counting from 1. */
  ghost function LastPosition(list: seq<Token>, tk: Token): (p: nat)
    requires tk in list
    ensures 1 <= p <= |list| && list[p - 1] == tk && tk !in list[p..]
  {
    if list[|list| - 1] == tk then |list|
    else
      var p := LastPosition(list[..|list| - 1], tk);
      assert forall i :: p <= i < |list| - 1 ==> list[i] in list[..|list| - 1][p..];
      p
  }

  /** What a `char` of 8 bits with a sign holds of a count. */
  function AsChar(n: nat): int {
    (n + 128) % 256 - 128
  }

  /** What a table says about a token list: each member has the position of its last occurrence, as a `char`. */
  ghost predicate Tabulates(t: seq<int>, list: seq<Token>) {
    |t| == REGULAR_TOKENS && forall tk: Token :: tk < REGULAR_TOKENS ==>
      t[tk] == if tk in list then AsChar(LastPosition(list, tk)) else 0
  }

  lemma NothingTabulated(t: seq<int>, list: seq<Token>)
    requires list == [] && |t| == REGULAR_TOKENS && forall i :: 0 <= i < |t| ==> t[i] == 0
    ensures Tabulates(t, list)
  {
  }

  lemma ShortTable(t: seq<int>, list: seq<Token>)
    requires |list| < 128 && Tabulates(t, list)
    ensures IsTable(t) && forall tk: Token :: tk < REGULAR_TOKENS ==> (t[tk] != 0 <==> tk in list)
  {
    hide LastPosition;
    forall i | 0 <= i < |t| ensures 0 <= t[i] < 128 && (t[i] != 0 <==> i in list) {
      var tk: Token := i;
      assert t[tk] == if tk in list then AsChar(LastPosition(list, tk)) else 0;
      if tk in list {
        SmallAsChar(LastPosition(list, tk));
      }
    }
  }

  lemma TabulatesNext(t: seq<int>, list: seq<Token>, tk: Token)
    requires Tabulates(t, list) && tk < REGULAR_TOKENS
    ensures Tabulates(t[tk := AsChar(|list| + 1)], list + [tk])
  {
    var now := list + [tk];
    assert now[..|list|] == list;
    forall x: Token | x < REGULAR_TOKENS && x in now
      ensures LastPosition(now, x) == if x == tk then |now| else LastPosition(list, x)
    {
    }
  }

  /**
    Converts a token list to a table; fails on a token that is not regular. Positions are kept in a
    `char`, so the table tells them apart, and has all members, only if the list is short enough.
   */
  method ConvertToTable(list: seq<Token>) returns (ok: bool, t: seq<int>)
    requires NO_TOKEN !in list  // which would end the list
    ensures ok <==> forall i :: 0 <= i < |list| ==> list[i] < REGULAR_TOKENS
    ensures ok ==> Tabulates(t, list)
    ensures ok && |list| < 128 ==>
      IsTable(t) && forall tk: Token :: tk < REGULAR_TOKENS ==> (t[tk] != 0 <==> tk in list)
  {
    t := seq(REGULAR_TOKENS, _ => 0);
    NothingTabulated(t, list[..0]);
    hide LastPosition, AsChar, Tabulates, IsTable;
    for i := 0 to |list|
      invariant forall k :: 0 <= k < i ==> list[k] < REGULAR_TOKENS
      invariant |t| == REGULAR_TOKENS && Tabulates(t, list[..i])
    {
      if list[i] >= REGULAR_TOKENS {
        return false, t;
      }
      TabulatesNext(t, list[..i], list[i]);
      assert list[..i + 1] == list[..i] + [list[i]];
      t := t[list[i] := AsChar(i + 1)];
    }
    assert list[..|list|] == list;
    if |list| < 128 {
      ShortTable(t, list);
    }
    ok := true;
  }

  /** A table that is made of a short list knows what is in the list, and where it is last. */
  lemma TableLooksUp(t: Table, list: seq<Token>, tk: Token)
    requires |list| < 128 && Tabulates(t, list) && forall i :: 0 <= i < |list| ==> list[i] < REGULAR_TOKENS
    ensures PosInSet(t, tk) == if tk in list then LastPosition(list, tk) else 0
  {
    hide LastPosition;
    if tk in list {
      SmallAsChar(LastPosition(list, tk));
    }
    hide AsChar;
  }

  lemma SmallAsChar(n: nat)
    requires n < 128
    ensures AsChar(n) == n
  {
  }

  /** A run may start with any token in a language without sets, and in others with any token that is not listed. */
  lemma MayStartUnlessListed(lang: Language, list: seq<Token>, tk: Token)
    requires lang.Algol? ==>
      |list| < 128 && Tabulates(lang.nonInitials, list) && forall i :: 0 <= i < |list| ==> list[i] < REGULAR_TOKENS
    ensures MayStartRun(lang, tk) <==> (lang.Algol? ==> tk !in list)
  {
    if lang.Algol? {
      TableLooksUp(lang.nonInitials, list, tk);
    }
  }

  // ---------- Balanced prefixes ----------

  /** How many of the first `q` tokens are in `set_` with position `k`. */
  ghost function Occurrences(set_: Table, s: seq<Token>, q: nat, k: nat): nat
    requires q <= |s|
  {
    if q == 0 then 0
    else Occurrences(set_, s, q - 1, k) + if PosInSet(set_, s[q - 1]) == k then 1 else 0
  }

  /** Kind `k` has as many openers as closers in the first `q` tokens. */
  ghost predicate Even(lang: Language, s: seq<Token>, q: nat, k: nat)
    requires lang.Algol? && q <= |s|
  {
    Occurrences(lang.openers, s, q, k) == Occurrences(lang.closers, s, q, k)
  }

  /** Kind `k` has no closer too many in the first `q` tokens. */
  ghost predicate NoSurplus(lang: Language, s: seq<Token>, q: nat, k: nat)
    requires lang.Algol? && q <= |s|
  {
    Occurrences(lang.closers, s, q, k) <= Occurrences(lang.openers, s, q, k)
  }

  /**
    The first `q` tokens are routine-like: every kind of parenthesis balances, and no prefix
    closes what it has not opened.
   */
  ghost predicate Routine(lang: Language, s: seq<Token>, q: nat)
    requires lang.Algol?
  {
    && q <= |s|
    && (forall k :: 0 < k < REGULAR_TOKENS ==> Even(lang, s, q, k))
    && (forall r, k :: 0 <= r <= q && 0 < k < REGULAR_TOKENS ==> NoSurplus(lang, s, r, k))
  }

  /** The longest routine-like prefix of at most `n` tokens. */
  ghost function LongestRoutine(lang: Language, s: seq<Token>, n: nat): (m: nat)
    requires lang.Algol? && n <= |s|
    ensures m <= n && Routine(lang, s, m)
    ensures forall q :: m < q <= n ==> !Routine(lang, s, q)
  {
    if n == 0 || Routine(lang, s, n) then n else LongestRoutine(lang, s, n - 1)
  }

  /** What is left of the first `n` tokens when those that cannot end a run are cut from the end. */
  ghost function Trimmed(lang: Language, s: seq<Token>, n: nat): (m: nat)
    requires lang.Algol? && n <= |s|
    ensures m <= n
    ensures m > 0 ==> PosInSet(lang.nonFinals, s[m - 1]) == 0
    ensures forall i :: m <= i < n ==> PosInSet(lang.nonFinals, s[i]) != 0
  {
    if n > 0 && PosInSet(lang.nonFinals, s[n - 1]) != 0 then Trimmed(lang, s, n - 1) else n
  }

  /** The accepted length of the run that consists of the first `n` tokens of `s`. */
  ghost function BestSize(lang: Language, s: seq<Token>, n: nat): (m: nat)
    requires n <= |s|
    ensures m <= n
  {
    match lang
    case Plain => n
    case Algol(_, _, _, _, routinesOnly) =>
      Trimmed(lang, s, if routinesOnly then LongestRoutine(lang, s, n) else n)
  }

  // ---------- The scan for the largest routine ----------

  /** The kinds that are open. */
  ghost function Imbalanced(balance: seq<nat>): set<nat> {
    set k | 0 <= k < |balance| && balance[k] != 0
  }

  ghost predicate Counts(lang: Language, s: seq<Token>, q: nat, balance: seq<nat>)
    requires lang.Algol? && q <= |s|
  {
    && |balance| == REGULAR_TOKENS
    && balance[0] == 0
    && forall k :: 0 < k < REGULAR_TOKENS ==>
         Occurrences(lang.openers, s, q, k) == Occurrences(lang.closers, s, q, k) + balance[k]
  }

  /** Setting one count changes the number of open kinds by at most one. */
  lemma ImbalancedAfter(before: seq<nat>, k: nat, v: nat)
    requires k < |before|
    ensures |Imbalanced(before[k := v])| ==
            |Imbalanced(before)| + (if v != 0 then 1 else 0) - (if before[k] != 0 then 1 else 0)
  {
    var rest := Imbalanced(before) - {k};
    assert Imbalanced(before) == if before[k] != 0 then rest + {k} else rest;
    assert Imbalanced(before[k := v]) == if v != 0 then rest + {k} else rest;
  }

  lemma NoneImbalanced(lang: Language, s: seq<Token>, q: nat, balance: seq<nat>)
    requires lang.Algol? && q <= |s| && Counts(lang, s, q, balance)
    ensures |Imbalanced(balance)| == 0 <==> forall k :: 0 < k < REGULAR_TOKENS ==> Even(lang, s, q, k)
  {
    if |Imbalanced(balance)| == 0 {
      forall k | 0 < k < REGULAR_TOKENS ensures Even(lang, s, q, k) {
        assert k !in Imbalanced(balance);
      }
    } else {
      var k :| k in Imbalanced(balance);
      assert !Even(lang, s, q, k);
    }
  }

  /** What the balances are after the opener that the next token may be. */
  ghost predicate CountsOpened(lang: Language, s: seq<Token>, q: nat, balance: seq<nat>)
    requires lang.Algol? && q < |s|
  {
    && |balance| == REGULAR_TOKENS
    && balance[0] == 0
    && forall k :: 0 < k < REGULAR_TOKENS ==>
         Occurrences(lang.openers, s, q + 1, k) == Occurrences(lang.closers, s, q, k) + balance[k]
  }

  lemma CountsGiveNoSurplus(lang: Language, s: seq<Token>, q: nat, balance: seq<nat>)
    requires lang.Algol? && q <= |s| && Counts(lang, s, q, balance)
    ensures forall k {:trigger NoSurplus(lang, s, q, k)} :: 0 < k < REGULAR_TOKENS ==> NoSurplus(lang, s, q, k)
  {
  }

  lemma NoRoutine(lang: Language, s: seq<Token>)
    requires lang.Algol?
    ensures LongestRoutine(lang, s, 0) == 0
    ensures forall k :: 0 < k < REGULAR_TOKENS ==> NoSurplus(lang, s, 0, k)
  {
  }

  /** Whether the first `q` tokens are routine-like. */
  lemma NextRoutine(lang: Language, s: seq<Token>, q: nat)
    requires lang.Algol? && 0 < q <= |s|
    requires forall r, k :: 0 <= r <= q && 0 < k < REGULAR_TOKENS ==> NoSurplus(lang, s, r, k)
    ensures LongestRoutine(lang, s, q) ==
      if forall k :: 0 < k < REGULAR_TOKENS ==> Even(lang, s, q, k) then q else LongestRoutine(lang, s, q - 1)
  {
    hide NoSurplus, Even;
  }

  /** Scans for the size of the largest routine-like prefix. */
  method LargestRoutine(lang: Language, s: seq<Token>, size: nat) returns (m: nat)
    requires lang.Algol? && size <= |s|
    ensures m == LongestRoutine(lang, s, size)
  {
    m := 0;
    var imbalances: int := 0;
    var balance := new nat[REGULAR_TOKENS](_ => 0);
    assert Imbalanced(balance[..]) == {} && Counts(lang, s, 0, balance[..]);
    hide Counts, Imbalanced, Routine, LongestRoutine, NoSurplus, Even;
    NoRoutine(lang, s);
    for pos := 0 to size
      invariant balance.Length == REGULAR_TOKENS && Counts(lang, s, pos, balance[..])
      invariant imbalances == |Imbalanced(balance[..])|
      invariant forall r, k :: 0 <= r <= pos && 0 < k < REGULAR_TOKENS ==> NoSurplus(lang, s, r, k)
      invariant m == LongestRoutine(lang, s, pos)
    {
      var tk := s[pos];
      imbalances := CountOpener(lang, s, pos, balance, imbalances);
      var surplus;
      imbalances, surplus := CountCloser(lang, s, pos, balance, imbalances);
      if surplus {
        SurplusEnds(lang, s, pos + 1, size, PosInSet(lang.closers, tk), m);
        return;
      }
      NoneImbalanced(lang, s, pos + 1, balance[..]);
      CountsGiveNoSurplus(lang, s, pos + 1, balance[..]);
      NextRoutine(lang, s, pos + 1);
      if imbalances == 0 {
        m := pos + 1;
      }
    }
  }

  /** Accounts for an opener at `pos`. */
  method CountOpener(lang: Language, s: seq<Token>, pos: nat, balance: array<nat>, open: nat) returns (imbalances: nat)
    requires lang.Algol? && pos < |s| && Counts(lang, s, pos, balance[..])
    requires open == |Imbalanced(balance[..])|
    modifies balance
    ensures CountsOpened(lang, s, pos, balance[..])
    ensures imbalances == |Imbalanced(balance[..])|
  {
    imbalances := open;
    ghost var b := balance[..];
    var pp := PosInSet(lang.openers, s[pos]);
    if pp != 0 {
      ImbalancedAfter(b, pp, b[pp] + 1);
      if balance[pp] == 0 {
        imbalances := imbalances + 1;
      }
      balance[pp] := balance[pp] + 1;
      assert balance[..] == b[pp := b[pp] + 1];
    }
  }

  /** Accounts for a closer at `pos`, unless it is one too many. */
  method CountCloser(lang: Language, s: seq<Token>, pos: nat, balance: array<nat>, open: nat)
    returns (imbalances: nat, surplus: bool)
    requires lang.Algol? && pos < |s| && CountsOpened(lang, s, pos, balance[..])
    requires open == |Imbalanced(balance[..])|
    modifies balance
    ensures surplus ==> var k := PosInSet(lang.closers, s[pos]); k != 0 && !NoSurplus(lang, s, pos + 1, k)
    ensures !surplus ==> Counts(lang, s, pos + 1, balance[..]) && imbalances == |Imbalanced(balance[..])|
  {
    imbalances, surplus := open, false;
    ghost var b := balance[..];
    var pp := PosInSet(lang.closers, s[pos]);
    if pp != 0 {
      if balance[pp] == 0 {
        surplus := true;
        return;
      }
      ImbalancedAfter(b, pp, b[pp] - 1);
      balance[pp] := balance[pp] - 1;
      assert balance[..] == b[pp := b[pp] - 1];
      if balance[pp] == 0 {
        imbalances := imbalances - 1;
      }
    }
  }

  /** After a closer too many no longer prefix is routine-like. */
  lemma SurplusEnds(lang: Language, s: seq<Token>, q: nat, size: nat, k: nat, m: nat)
    requires lang.Algol? && 0 < q <= size <= |s| && 0 < k < REGULAR_TOKENS
    requires !NoSurplus(lang, s, q, k)
    requires m == LongestRoutine(lang, s, q - 1)
    ensures m == LongestRoutine(lang, s, size)
  {
    forall r | q <= r <= size ensures !Routine(lang, s, r) {
    }
    var l := LongestRoutine(lang, s, size);
    assert l < q;
    assert Routine(lang, s, l) && Routine(lang, s, m);
  }

  /** Finds the accepted length of the first `size` tokens. */
  method BestRunSize(lang: Language, s: seq<Token>, size: nat) returns (r: nat)
    requires size <= |s|
    ensures r == BestSize(lang, s, size) && r <= size
    ensures lang.Plain? ==> r == size
    ensures lang.Algol? && r > 0 ==> PosInSet(lang.nonFinals, s[r - 1]) == 0
    ensures lang.Algol? && !lang.routinesOnly ==> forall i :: r <= i < size ==> PosInSet(lang.nonFinals, s[i]) != 0
  {
    r := size;
    if lang.Plain? {
      return;
    }
    if lang.routinesOnly {
      r := LargestRoutine(lang, s, r);
    }
    while r != 0 && PosInSet(lang.nonFinals, s[r - 1]) != 0
      invariant r <= size
      invariant Trimmed(lang, s, r) == BestSize(lang, s, size)
    {
      r := r - 1;
    }
  }

  // ---------- Properties of the accepted length ----------

  /** Offering more never gets less accepted. */
  lemma {:induction false} BestSizeMonotone(lang: Language, s: seq<Token>, a: nat, b: nat)
    requires a <= b <= |s|
    ensures BestSize(lang, s, a) <= BestSize(lang, s, b)
  {
    if lang.Algol? {
      var (m, n) := if lang.routinesOnly then (LongestRoutine(lang, s, a), LongestRoutine(lang, s, b)) else (a, b);
      assert lang.routinesOnly ==> Routine(lang, s, m);
      TrimmedMonotone(lang, s, m, n);
    }
  }

  lemma TrimmedMonotone(lang: Language, s: seq<Token>, a: nat, b: nat)
    requires lang.Algol? && a <= b <= |s|
    ensures Trimmed(lang, s, a) <= Trimmed(lang, s, b)
  {
  }

  /** The accepted length looks at no token beyond the run that is offered. */
  lemma {:induction false} BestSizeLocal(lang: Language, s: seq<Token>, t: seq<Token>, n: nat)
    requires n <= |s| && n <= |t| && s[..n] == t[..n]
    ensures BestSize(lang, s, n) == BestSize(lang, t, n)
  {
    forall i | 0 <= i < n ensures s[i] == t[i] {
      assert s[..n][i] == t[..n][i];
    }
    if lang.Algol? {
      var (a, b) := if lang.routinesOnly then (LongestRoutine(lang, s, n), LongestRoutine(lang, t, n)) else (n, n);
      if lang.routinesOnly {
        RoutineLocal(lang, s, t, a);
        RoutineLocal(lang, t, s, b);
      }
      assert a == b;
      assert Trimmed(lang, s, a) == Trimmed(lang, t, a);
    }
  }

  lemma {:induction false} RoutineLocal(lang: Language, s: seq<Token>, t: seq<Token>, q: nat)
    requires lang.Algol? && q <= |s| && q <= |t| && forall i :: 0 <= i < q ==> s[i] == t[i]
    requires Routine(lang, s, q)
    ensures Routine(lang, t, q)
  {
    forall r, k | 0 <= r <= q && 0 < k < REGULAR_TOKENS
      ensures NoSurplus(lang, t, r, k) && (Even(lang, s, r, k) <==> Even(lang, t, r, k))
    {
      OccurrencesLocal(lang.openers, s, t, r, k);
      OccurrencesLocal(lang.closers, s, t, r, k);
      assert NoSurplus(lang, s, r, k);
    }
    forall k | 0 < k < REGULAR_TOKENS ensures Even(lang, t, q, k) {
      assert Even(lang, s, q, k);
    }
  }

  lemma {:induction false} OccurrencesLocal(set_: Table, s: seq<Token>, t: seq<Token>, q: nat, k: nat)
    requires q <= |s| && q <= |t| && forall i :: 0 <= i < q ==> s[i] == t[i]
    ensures Occurrences(set_, s, q, k) == Occurrences(set_, t, q, k)
  {
    if q > 0 {
      OccurrencesLocal(set_, s, t, q - 1, k);
    }
  }

  /** Between `a` and `b` there are as many openers as closers of every kind. */
  ghost predicate BalancedBetween(lang: Language, s: seq<Token>, a: nat, b: nat)
    requires lang.Algol? && a <= b <= |s|
  {
    forall k :: 0 < k < REGULAR_TOKENS ==>
      Occurrences(lang.openers, s, b, k) - Occurrences(lang.openers, s, a, k) ==
      Occurrences(lang.closers, s, b, k) - Occurrences(lang.closers, s, a, k)
  }

  /**
    An accepted run is accepted again as it is, if and only if the tail that was cut off its largest
    routine balances.
   */
  lemma {:induction false} IdempotentIff(lang: Language, s: seq<Token>, n: nat)
    requires n <= |s|
    ensures BestSize(lang, s, BestSize(lang, s, n)) == BestSize(lang, s, n) <==>
            (lang.Algol? && lang.routinesOnly ==>
               BalancedBetween(lang, s, BestSize(lang, s, n), LongestRoutine(lang, s, n)))
  {
    if lang.Algol? && lang.routinesOnly {
      var m := LongestRoutine(lang, s, n);
      var t := Trimmed(lang, s, m);
      if BalancedBetween(lang, s, t, m) {
        forall k | 0 < k < REGULAR_TOKENS ensures Even(lang, s, t, k) {
          assert Even(lang, s, m, k);
        }
        assert Routine(lang, s, t);
      }
      if BestSize(lang, s, t) == t {
        assert Routine(lang, s, t);
        forall k | 0 < k < REGULAR_TOKENS
          ensures Occurrences(lang.openers, s, m, k) - Occurrences(lang.openers, s, t, k) ==
                  Occurrences(lang.closers, s, m, k) - Occurrences(lang.closers, s, t, k)
        {
          assert Even(lang, s, m, k) && Even(lang, s, t, k);
        }
      }
    }
  }

  // ---------- Which languages accept again what they have accepted ----------

  /** An opener and a closer of one kind, of which the closer may not end a run. */
  ghost predicate BadPair(lang: Language, o: Token, c: Token)
    requires lang.Algol?
  {
    && PosInSet(lang.openers, o) == PosInSet(lang.closers, c) != 0
    && PosInSet(lang.nonFinals, c) != 0
  }

  ghost predicate HasBadPair(lang: Language)
    requires lang.Algol?
  {
    exists o: Token, c: Token :: BadPair(lang, o, c)
  }

  /** No token both opens and closes. */
  ghost predicate Disjoint(lang: Language)
    requires lang.Algol?
  {
    forall tk: Token :: PosInSet(lang.openers, tk) == 0 || PosInSet(lang.closers, tk) == 0
  }

  ghost predicate Idempotent(lang: Language, s: seq<Token>, n: nat)
    requires n <= |s|
  {
    BestSize(lang, s, BestSize(lang, s, n)) == BestSize(lang, s, n)
  }

  /** A closer in a routine has an opener of its kind. */
  lemma {:induction false} OpenerBefore(set_: Table, s: seq<Token>, q: nat, k: nat) returns (i: nat)
    requires q <= |s| && Occurrences(set_, s, q, k) > 0
    ensures i < q && PosInSet(set_, s[i]) == k
  {
    if PosInSet(set_, s[q - 1]) == k {
      i := q - 1;
    } else {
      i := OpenerBefore(set_, s, q - 1, k);
    }
  }

  /** No closer is cut off a routine. */
  lemma NoCloserCut(lang: Language, s: seq<Token>, m: nat, i: nat)
    requires lang.Algol? && !HasBadPair(lang) && Routine(lang, s, m) && i < m
    requires PosInSet(lang.nonFinals, s[i]) != 0
    ensures PosInSet(lang.closers, s[i]) == 0
  {
    var k := PosInSet(lang.closers, s[i]);
    if k != 0 {
      assert NoSurplus(lang, s, i + 1, k);
      assert Occurrences(lang.closers, s, i + 1, k) > 0;
      var j := OpenerBefore(lang.openers, s, i + 1, k);
      assert BadPair(lang, s[j], s[i]);
    }
  }

  /** Without a bad pair every accepted run is accepted again as it is. */
  lemma {:induction false} BestSizeIdempotent(lang: Language, s: seq<Token>, n: nat)
    requires n <= |s|
    requires lang.Algol? && lang.routinesOnly ==> !HasBadPair(lang)
    ensures Idempotent(lang, s, n)
  {
    IdempotentIff(lang, s, n);
    if lang.Algol? && lang.routinesOnly {
      var m := LongestRoutine(lang, s, n);
      var t := Trimmed(lang, s, m);
      forall k | 0 < k < REGULAR_TOKENS
        ensures Occurrences(lang.closers, s, t, k) == Occurrences(lang.closers, s, m, k)
        ensures Occurrences(lang.openers, s, t, k) == Occurrences(lang.openers, s, m, k)
      {
        assert Even(lang, s, m, k) && NoSurplus(lang, s, t, k);
        forall i | t <= i < m ensures PosInSet(lang.closers, s[i]) == 0 {
          NoCloserCut(lang, s, m, i);
        }
        NoClosers(lang, s, t, m, k);
      }
    }
  }

  lemma {:induction false} NoClosers(lang: Language, s: seq<Token>, a: nat, b: nat, k: nat)
    requires lang.Algol? && a <= b <= |s| && 0 < k
    requires forall i :: a <= i < b ==> PosInSet(lang.closers, s[i]) == 0
    ensures Occurrences(lang.closers, s, a, k) == Occurrences(lang.closers, s, b, k)
    ensures Occurrences(lang.openers, s, a, k) <= Occurrences(lang.openers, s, b, k)
    decreases b
  {
    if a < b {
      NoClosers(lang, s, a, b - 1, k);
    }
  }

  /**
    With a bad pair there is a run of which the accepted part is refused: the opener, a token that is
    in no set, and the closer.
   */
  lemma IdempotenceFails(lang: Language, o: Token, c: Token)
    requires lang.Algol? && lang.routinesOnly && BadPair(lang, o, c)
    requires PosInSet(lang.closers, o) == 0 && PosInSet(lang.openers, c) == 0
    ensures !Idempotent(lang, [o, REGULAR_TOKENS, c], 3)
  {
    var s: seq<Token> := [o, REGULAR_TOKENS, c];
    var kind := PosInSet(lang.openers, o);
    forall k | 0 < k < REGULAR_TOKENS
      ensures NoSurplus(lang, s, 0, k) && NoSurplus(lang, s, 1, k) && NoSurplus(lang, s, 2, k)
      ensures NoSurplus(lang, s, 3, k)
      ensures Even(lang, s, 3, k) && (k == kind ==> !Even(lang, s, 2, k) && !Even(lang, s, 1, k))
    {
      OccurrencesOfThree(lang.openers, s, k);
      OccurrencesOfThree(lang.closers, s, k);
    }
    assert Routine(lang, s, 3);
    assert !Even(lang, s, 2, kind) && !Even(lang, s, 1, kind);
    assert BestSize(lang, s, 3) == 2;
    assert BestSize(lang, s, 2) == 0;
  }

  lemma OccurrencesOfThree(set_: Table, s: seq<Token>, k: nat)
    requires |s| == 3
    ensures var hit := seq(3, i requires 0 <= i < 3 => if PosInSet(set_, s[i]) == k then 1 else 0);
      && Occurrences(set_, s, 0, k) == 0
      && Occurrences(set_, s, 1, k) == hit[0]
      && Occurrences(set_, s, 2, k) == hit[0] + hit[1]
      && Occurrences(set_, s, 3, k) == hit[0] + hit[1] + hit[2]
  {
    assert Occurrences(set_, s, 0, k) == 0;
    assert Occurrences(set_, s, 1, k) == Occurrences(set_, s, 0, k) + if PosInSet(set_, s[0]) == k then 1 else 0;
    assert Occurrences(set_, s, 2, k) == Occurrences(set_, s, 1, k) + if PosInSet(set_, s[1]) == k then 1 else 0;
  }

  /** A language accepts every accepted run again, if and only if it has no bad pair or does not look for routines. */
  lemma IdempotentLanguage(lang: Language)
    requires lang.Algol? ==> Disjoint(lang)
    ensures (forall s: seq<Token>, n: nat :: n <= |s| ==> Idempotent(lang, s, n)) <==>
            (lang.Algol? && lang.routinesOnly ==> !HasBadPair(lang))
  {
    if lang.Algol? && lang.routinesOnly && HasBadPair(lang) {
      var o: Token, c: Token :| BadPair(lang, o, c);
      IdempotenceFails(lang, o, c);
      var s: seq<Token> := [o, REGULAR_TOKENS, c];
      assert |s| == 3 && !Idempotent(lang, s, 3);
    } else {
      forall s: seq<Token>, n: nat | n <= |s| ensures Idempotent(lang, s, n) {
        BestSizeIdempotent(lang, s, n);
      }
    }
  }
}
