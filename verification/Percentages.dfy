/**
  The match percentages: how much of one file is found in another, and the report on them.
 */
module Percentages {
  import opened Corpora
  import opened Comparison
  import opened LinkedLists

  /** `size` tokens of `file0`, which has `size0` of them, are found in `file1`. */
  datatype Match = Match(file0: nat, file1: nat, size: nat, size0: nat)

  // ---------- The ledger as a sequence ----------

  predicate IsFor(m: Match, file0: nat, file1: nat) {
    m.file0 == file0 && m.file1 == file1
  }

  /** Where the entry for two files is; the length of the ledger if there is none. */
  ghost function Find(ms: seq<Match>, file0: nat, file1: nat): (k: nat)
    ensures k <= |ms| && (k < |ms| ==> IsFor(ms[k], file0, file1))
    ensures forall i :: 0 <= i < k ==> !IsFor(ms[i], file0, file1)
  {
    if ms == [] || IsFor(ms[0], file0, file1) then 0
    else
      var k := Find(ms[1..], file0, file1);
      assert forall i :: 0 < i < k + 1 ==> ms[i] == ms[1..][i - 1];
      1 + k
  }

  /** The ledger with `size` tokens added to the entry for two files, or a new entry at the end. */
  ghost function Added(ms: seq<Match>, file0: nat, file1: nat, size: nat, size0: nat): seq<Match> {
    var k := Find(ms, file0, file1);
    if k < |ms| then ms[k := ms[k].(size := ms[k].size + size)] else ms + [Match(file0, file1, size, size0)]
  }

  /** The tokens of `file0` found in `file1`, according to the ledger. */
  ghost function SizeFor(ms: seq<Match>, file0: nat, file1: nat): nat {
    var k := Find(ms, file0, file1);
    if k < |ms| then ms[k].size else 0
  }

  lemma FindIs(ms: seq<Match>, file0: nat, file1: nat, k: nat)
    requires k <= |ms| && (k < |ms| ==> IsFor(ms[k], file0, file1))
    requires forall i :: 0 <= i < k ==> !IsFor(ms[i], file0, file1)
    ensures Find(ms, file0, file1) == k
  {
  }

  lemma AddedSize(ms: seq<Match>, file0: nat, file1: nat, size: nat, size0: nat, a: nat, b: nat)
    ensures SizeFor(Added(ms, file0, file1, size, size0), a, b) ==
            SizeFor(ms, a, b) + if a == file0 && b == file1 then size else 0
  {
    var now := Added(ms, file0, file1, size, size0);
    var k, q := Find(ms, file0, file1), Find(ms, a, b);
    if q == |ms| && !(a == file0 && b == file1) {
      FindIs(now, a, b, |now|);
    } else {
      FindIs(now, a, b, q);
    }
  }

  /** No two entries are for the same two files in the same order. */
  ghost predicate OneEach(ms: seq<Match>) {
    forall i, j :: 0 <= i < j < |ms| ==> !IsFor(ms[j], ms[i].file0, ms[i].file1)
  }

  /** Every entry holds the number of tokens of its first file, and both files are texts, and different. */
  ghost predicate Described(c: Corpus, ms: seq<Match>) {
    forall i :: 0 <= i < |ms| ==>
      ms[i].size0 == Length(c, ms[i].file0) && ms[i].file0 != ms[i].file1
  }

  lemma AddedKeeps(c: Corpus, ms: seq<Match>, file0: nat, file1: nat, size: nat)
    requires OneEach(ms) && Described(c, ms) && file0 != file1
    ensures var now := Added(ms, file0, file1, size, Length(c, file0)); OneEach(now) && Described(c, now)
  {
  }

  /** The ledger after a run: nothing within one file, and an entry in both directions between two. */
  ghost function Entered(ms: seq<Match>, c: Corpus, r: Run): seq<Match> {
    if r.text0 == r.text1 then ms
    else Added(Added(ms, r.text0, r.text1, r.size, Length(c, r.text0)), r.text1, r.text0, r.size, Length(c, r.text1))
  }

  /** The number of tokens of a text. */
  ghost function Length(c: Corpus, n: nat): nat {
    if n < |c.texts| && c.texts[n].start <= c.texts[n].limit then c.texts[n].limit - c.texts[n].start else 0
  }

  ghost function AllEntered(c: Corpus, runs: seq<Run>): seq<Match> {
    if runs == [] then [] else Entered(AllEntered(c, runs[..|runs| - 1]), c, runs[|runs| - 1])
  }

  /** The ledger has one entry for two files in one order, and the length of the first of them. */
  lemma {:induction false} LedgerIsInOrder(c: Corpus, runs: seq<Run>)
    ensures OneEach(AllEntered(c, runs)) && Described(c, AllEntered(c, runs))
  {
    if runs != [] {
      var init, r := runs[..|runs| - 1], runs[|runs| - 1];
      LedgerIsInOrder(c, init);
      if r.text0 != r.text1 {
        var ms := AllEntered(c, init);
        AddedKeeps(c, ms, r.text0, r.text1, r.size);
        AddedKeeps(c, Added(ms, r.text0, r.text1, r.size, Length(c, r.text0)), r.text1, r.text0, r.size);
      }
    }
  }

  // ---------- Conservation ----------

  /** The tokens in all runs between two texts. */
  ghost function Total(runs: seq<Run>, a: nat, b: nat): nat {
    if runs == [] then 0
    else
      var r := runs[|runs| - 1];
      Total(runs[..|runs| - 1], a, b) +
        if (r.text0 == a && r.text1 == b) || (r.text0 == b && r.text1 == a) then r.size else 0
  }

  /** The entries for two files, in either direction, hold the total of the runs between them. */
  lemma {:induction false} EntriesHoldTotals(c: Corpus, runs: seq<Run>, a: nat, b: nat)
    requires a != b
    ensures SizeFor(AllEntered(c, runs), a, b) == Total(runs, a, b) == SizeFor(AllEntered(c, runs), b, a)
  {
    if runs != [] {
      var init, r := runs[..|runs| - 1], runs[|runs| - 1];
      EntriesHoldTotals(c, init, a, b);
      var ms := AllEntered(c, init);
      if r.text0 != r.text1 {
        var half := Added(ms, r.text0, r.text1, r.size, Length(c, r.text0));
        AddedSize(ms, r.text0, r.text1, r.size, Length(c, r.text0), a, b);
        AddedSize(ms, r.text0, r.text1, r.size, Length(c, r.text0), b, a);
        AddedSize(half, r.text1, r.text0, r.size, Length(c, r.text1), a, b);
        AddedSize(half, r.text1, r.text0, r.size, Length(c, r.text1), b, a);
      }
    }
  }

  lemma TotalOne(r: Run)
    ensures Total([r], r.text0, r.text1) == r.size == Total([r], r.text1, r.text0)
  {
    assert [r][..0] == [];
  }

  lemma TotalEmpty(a: nat, b: nat)
    ensures Total([], a, b) == 0
  {
  }

  lemma {:induction false} TotalConcat(s: seq<Run>, t: seq<Run>, a: nat, b: nat)
    ensures Total(s + t, a, b) == Total(s, a, b) + Total(t, a, b)
  {
    if t == [] {
      assert s + t == s;
    } else {
      TotalConcat(s, t[..|t| - 1], a, b);
      assert (s + t)[..|s + t| - 1] == s + t[..|t| - 1];
    }
  }

  /** Runs that lie between other texts do not count. */
  lemma {:induction false} TotalNone(s: seq<Run>, a: nat, b: nat)
    requires forall r :: r in s ==> !(r.text0 == a && r.text1 == b) && !(r.text0 == b && r.text1 == a)
    ensures Total(s, a, b) == 0
  {
    if s != [] {
      TotalNone(s[..|s| - 1], a, b);
    }
  }

  /** Consecutive runs within a text have no more tokens together than the text. */
  lemma {:induction false} ConsecutiveTotal(runs: seq<Run>, a: nat, b: nat, from: nat, limit: nat)
    requires Consecutive(runs, from) && from <= limit
    requires forall r :: r in runs ==> r.pos0 + r.size <= limit
    ensures Total(runs, a, b) <= limit - from
    decreases |runs|
  {
    if runs != [] {
      var r := runs[0];
      ConsecutiveTotal(runs[1..], a, b, r.pos0 + r.size, limit);
      assert runs == [r] + runs[1..];
      TotalConcat([r], runs[1..], a, b);
      assert [r][..0] == [];
    }
  }

  lemma TextRunsTotal(c: Corpus, n: nat, first: nat, limit: nat, a: nat, b: nat)
    requires c.Valid() && n < |c.texts| && first < limit <= |c.texts|
    ensures Total(TextRuns(c, n, first, limit), a, b) <= Length(c, n)
  {
    var lo, hi, start := c.texts[first].start, c.texts[limit - 1].limit, c.texts[n].start;
    RunsAreGenuine(c, n, lo, hi, start);
    var runs := TextRuns(c, n, first, limit);
    assert forall r :: r in runs ==> Genuine(c, n, lo, hi, r);
    ConsecutiveTotal(runs, a, b, start, c.texts[n].limit);
  }

  lemma {:induction false} SeparateRunsTotal(c: Corpus, o: Options, n: nat, first: nat, limit: nat, m: nat)
    requires c.Valid() && n < c.newTexts && n < m && FirstText(c, o, n) <= first && limit <= |c.texts|
    ensures Total(SeparateRuns(c, n, first, limit), n, m) <= if first <= m < limit then Length(c, n) else 0
    decreases limit
  {
    hide TextRuns, Total, Length, Partition;
    TotalEmpty(n, m);
    if first < limit {
      var rest, last := SeparateRuns(c, n, first, limit - 1), TextRuns(c, n, limit - 1, limit);
      SeparateRunsTotal(c, o, n, first, limit - 1, m);
      TotalConcat(rest, last, n, m);
      if m == limit - 1 {
        TextRunsTotal(c, n, m, limit, n, m);
      } else {
        TextRunsAdmissible(c, o, n, limit - 1, limit);
        TotalNone(last, n, m);
      }
    }
  }

  /** Text `k` is not one of two texts of which it is not the first: its runs do not count for them. */
  lemma OtherRunsTotal(c: Corpus, o: Options, k: nat, n: nat, m: nat)
    requires c.Valid() && k < c.newTexts && n < m && k != n
    requires o.eachSeparately && (o.notToSelf || o.oldOnly)
    ensures Total(RunsOf(c, o, k), n, m) == 0
  {
    SeparateRunsAdmissible(c, o, k, FirstText(c, o, k), |c.texts|);
    forall r | r in RunsOf(c, o, k) ensures r.text0 == k < r.text1 {
      assert Admissible(c, o, r);
    }
    TotalNone(RunsOf(c, o, k), n, m);
  }

  lemma OwnRunsTotal(c: Corpus, o: Options, n: nat, m: nat)
    requires c.Valid() && n < c.newTexts && n < m
    requires o.eachSeparately && (o.notToSelf || o.oldOnly)
    ensures Total(RunsOf(c, o, n), n, m) <= Length(c, n)
  {
    SeparateRunsTotal(c, o, n, FirstText(c, o, n), |c.texts|, m);
  }

  /** When files are compared separately, and not to themselves, two of them share no more tokens than the first has. */
  lemma {:induction false} TotalBounded(c: Corpus, o: Options, k: nat, n: nat, m: nat)
    requires c.Valid() && k <= c.newTexts && n < m
    requires o.eachSeparately && (o.notToSelf || o.oldOnly)
    ensures Total(AllRuns(c, o, k), n, m) <= if n < k then Length(c, n) else 0
  {
    hide RunsOf, Total, Length, Partition;
    TotalEmpty(n, m);
    if k > 0 {
      TotalBounded(c, o, k - 1, n, m);
      TotalConcat(AllRuns(c, o, k - 1), RunsOf(c, o, k - 1), n, m);
      if k - 1 == n {
        OwnRunsTotal(c, o, n, m);
      } else {
        OtherRunsTotal(c, o, k - 1, n, m);
      }
    }
  }

  /**
    The percentages of two files are based on the same number of tokens, which never exceeds the
    length of the first of them. So only the second can come out above 100 %.
   */
  lemma MatchesAreConserved(c: Corpus, o: Options, n: nat, m: nat)
    requires c.Valid() && n < m < |c.texts|
    requires o.eachSeparately && (o.notToSelf || o.oldOnly)
    ensures var ms := AllEntered(c, AllRuns(c, o, c.newTexts));
      && SizeFor(ms, n, m) == SizeFor(ms, m, n) <= Length(c, n)
      && OneEach(ms) && Described(c, ms)
  {
    var runs := AllRuns(c, o, c.newTexts);
    EntriesHoldTotals(c, runs, n, m);
    TotalBounded(c, o, c.newTexts, n, m);
    LedgerIsInOrder(c, runs);
  }

  // ---------- The report ----------

  /** The share of `p`, which is `size` / `size0`, is no lower than that of `q`. */
  ghost predicate AtLeast(p: Match, q: Match) {
    p.size * q.size0 >= q.size * p.size0
  }

  /** The share of `p` is higher than that of `q`. */
  predicate Higher(p: Match, q: Match) {
    p.size * q.size0 > q.size * p.size0
  }

  /** The percentage that is shown; overlapping matches may make it exceed 100. */
  function Percentage(m: Match): nat
    requires m.size0 > 0
  {
    var p := m.size * 100 / m.size0;
    if p > 100 then 100 else p
  }

  datatype Line = Line(file0: nat, percentage: nat, file1: nat)

  /** The line for an entry, if it reaches the threshold. */
  function LineFor(m: Match, threshold: nat): seq<Line>
    requires m.size0 > 0
  {
    if Percentage(m) >= threshold then [Line(m.file0, Percentage(m), m.file1)] else []
  }

  ghost predicate Sized(ms: seq<Match>) {
    forall m :: m in ms ==> m.size0 > 0
  }

  ghost function Lines(ms: seq<Match>, threshold: nat): seq<Line>
    requires Sized(ms)
  {
    if ms == [] then [] else Lines(ms[..|ms| - 1], threshold) + LineFor(ms[|ms| - 1], threshold)
  }

  /** The entries for a first file, in their order. */
  ghost function OfFile(ms: seq<Match>, file: nat): (r: seq<Match>)
    ensures Sized(ms) ==> Sized(r)
  {
    if ms == [] then []
    else OfFile(ms[..|ms| - 1], file) + if ms[|ms| - 1].file0 == file then [ms[|ms| - 1]] else []
  }

  ghost function NotOfFile(ms: seq<Match>, file: nat): (r: seq<Match>)
    ensures |r| <= |ms| && (Sized(ms) ==> Sized(r))
  {
    if ms == [] then []
    else NotOfFile(ms[..|ms| - 1], file) + if ms[|ms| - 1].file0 == file then [] else [ms[|ms| - 1]]
  }

  /** The two parts are what the ledger consists of. */
  lemma {:induction false} Parted(ms: seq<Match>, file: nat)
    ensures multiset(OfFile(ms, file)) + multiset(NotOfFile(ms, file)) == multiset(ms)
    ensures |OfFile(ms, file)| + |NotOfFile(ms, file)| == |ms|
  {
    if ms != [] {
      var init, m := ms[..|ms| - 1], ms[|ms| - 1];
      Parted(init, file);
      assert ms == init + [m];
      var a, b := OfFile(init, file), NotOfFile(init, file);
      OneMorePart(init, m, a, b);
    }
  }

  lemma OneMorePart(ms: seq<Match>, m: Match, a: seq<Match>, b: seq<Match>)
    requires multiset(a) + multiset(b) == multiset(ms) && |a| + |b| == |ms|
    ensures multiset(a + [m]) + multiset(b) == multiset(ms + [m]) == multiset(a) + multiset(b + [m])
  {
  }

  lemma {:induction false} PartMembers(ms: seq<Match>, file: nat)
    ensures forall m :: m in OfFile(ms, file) ==> m.file0 == file && m in ms
    ensures forall m :: m in NotOfFile(ms, file) ==> m.file0 != file && m in ms
  {
    if ms != [] {
      PartMembers(ms[..|ms| - 1], file);
    }
  }

  /** The order in which the entries are visited: all those of the first file of the top entry, and so on. */
  ghost function Report(ms: seq<Match>): (r: seq<Match>)
    ensures Sized(ms) ==> Sized(r)
    decreases |ms|
  {
    if ms == [] then []
    else
      Parted(ms, ms[0].file0);
      TopIsOfItsFile(ms);
      OfFile(ms, ms[0].file0) + Report(NotOfFile(ms, ms[0].file0))
  }

  /** The top entry of every group only. */
  ghost function MainReport(ms: seq<Match>): (r: seq<Match>)
    ensures Sized(ms) ==> Sized(r)
    decreases |ms|
  {
    if ms == [] then []
    else
      Parted(ms, ms[0].file0);
      TopIsOfItsFile(ms);
      [ms[0]] + MainReport(NotOfFile(ms, ms[0].file0))
  }

  lemma {:induction false} TopIsOfItsFile(ms: seq<Match>)
    requires ms != []
    ensures OfFile(ms, ms[0].file0) != [] && OfFile(ms, ms[0].file0)[0] == ms[0]
  {
    if |ms| > 1 {
      TopIsOfItsFile(ms[..|ms| - 1]);
    } else {
      assert OfFile(ms[..0], ms[0].file0) == [];
    }
  }

  /** No entry has a higher share than one before it. */
  ghost predicate Descending(ms: seq<Match>) {
    forall i, j :: 0 <= i < j < |ms| ==> AtLeast(ms[i], ms[j])
  }

  lemma AtLeastTransitive(a: Match, b: Match, c: Match)
    requires a.size0 > 0 && b.size0 > 0 && c.size0 > 0
    requires AtLeast(a, b) && AtLeast(b, c)
    ensures AtLeast(a, c)
  {
    CrossMultiplied(a.size, a.size0, b.size, b.size0, c.size, c.size0);
  }

  lemma CrossMultiplied(a: nat, a0: nat, b: nat, b0: nat, c: nat, c0: nat)
    requires b0 > 0 && b * a0 <= a * b0 && c * b0 <= b * c0
    ensures c * a0 <= a * c0
  {
    if a * c0 < c * a0 {
      calc {
        (a * c0) * b0;
      ==
        (a * b0) * c0;
      >=
        (b * a0) * c0;
      ==
        (b * c0) * a0;
      >=
        (c * b0) * a0;
      ==
        (c * a0) * b0;
      >
        (a * c0) * b0;
      }
    }
  }

  lemma {:induction false} OrderedIsDescending(chain: seq<Link<Match>>, i: nat, j: nat)
    requires Ordered(Higher, chain) && i < j < |chain|
    requires forall k :: 0 <= k < |chain| ==> chain[k].item.size0 > 0
    ensures AtLeast(chain[i].item, chain[j].item)
    decreases j
  {
    assert AtLeast(chain[j - 1].item, chain[j].item);
    if i < j - 1 {
      OrderedIsDescending(chain, i, j - 1);
      AtLeastTransitive(chain[i].item, chain[j - 1].item, chain[j].item);
    }
  }

  lemma {:induction false} PartsDescend(ms: seq<Match>, file: nat)
    requires Descending(ms)
    ensures Descending(OfFile(ms, file)) && Descending(NotOfFile(ms, file))
  {
    hide AtLeast;
    if ms != [] {
      var init, m := ms[..|ms| - 1], ms[|ms| - 1];
      PartsDescend(init, file);
      PartMembers(init, file);
      assert forall x :: x in init ==> AtLeast(x, m);
    }
  }

  /** Every entry is visited exactly once. */
  lemma {:induction false} ReportVisitsAll(ms: seq<Match>)
    ensures multiset(Report(ms)) == multiset(ms)
    decreases |ms|
  {
    if ms != [] {
      var f := ms[0].file0;
      Parted(ms, f);
      TopIsOfItsFile(ms);
      ReportVisitsAll(NotOfFile(ms, f));
    }
  }

  ghost predicate FirstOfItsFile(r: seq<Match>, i: nat)
    requires i < |r|
  {
    forall h :: 0 <= h < i ==> r[h].file0 != r[i].file0
  }

  /** The entries of one first file stand together. */
  ghost predicate Grouped(r: seq<Match>) {
    forall i, j, k :: 0 <= i < j < k < |r| && r[i].file0 == r[k].file0 ==> r[j].file0 == r[i].file0
  }

  /** Within one first file the shares descend, and no group has a higher share than the top of one before it. */
  ghost predicate GroupsDescend(r: seq<Match>) {
    forall i, j :: 0 <= i < j < |r| && (r[i].file0 == r[j].file0 || FirstOfItsFile(r, i)) ==> AtLeast(r[i], r[j])
  }

  lemma {:induction false} ReportIsGrouped(ms: seq<Match>)
    requires Descending(ms)
    ensures Grouped(Report(ms)) && GroupsDescend(Report(ms))
    decreases |ms|
  {
    if ms != [] {
      var f := ms[0].file0;
      Parted(ms, f);
      PartMembers(ms, f);
      PartsDescend(ms, f);
      TopIsOfItsFile(ms);
      var g, rest := OfFile(ms, f), Report(NotOfFile(ms, f));
      ReportIsGrouped(NotOfFile(ms, f));
      ReportVisitsAll(NotOfFile(ms, f));
      SameMembers(rest, NotOfFile(ms, f));
      TopIsHighest(ms);
      GroupInFront(g, rest, f);
    }
  }

  ghost predicate HasFile(ms: seq<Match>, file: nat) {
    exists i :: 0 <= i < |ms| && ms[i].file0 == file
  }

  lemma HasFileBehind(m: Match, ms: seq<Match>, file: nat)
    requires m.file0 == file || HasFile(ms, file)
    ensures HasFile([m] + ms, file)
  {
    assert ([m] + ms)[0] == m;
    if m.file0 != file {
      var i :| 0 <= i < |ms| && ms[i].file0 == file;
      assert ([m] + ms)[i + 1] == ms[i];
    }
  }

  /** The main contributors: one entry for every first file, and its highest. */
  ghost predicate MainOnes(main: seq<Match>, ms: seq<Match>) {
    && (forall m :: m in main ==> m in ms)
    && (forall i, j :: 0 <= i < j < |main| ==> main[i].file0 != main[j].file0)
    && (forall m :: m in ms ==> HasFile(main, m.file0))
    && (forall i, m :: 0 <= i < |main| && m in ms && m.file0 == main[i].file0 ==> AtLeast(main[i], m))
  }

  lemma {:induction false} MainReportIsMain(ms: seq<Match>)
    requires Descending(ms)
    ensures MainOnes(MainReport(ms), ms)
    decreases |ms|
  {
    if ms != [] {
      var f := ms[0].file0;
      Parted(ms, f);
      TopIsOfItsFile(ms);
      PartsDescend(ms, f);
      PartMembers(ms, f);
      MainReportIsMain(NotOfFile(ms, f));
      NotOfFileHasOthers(ms, f);
      MainInFront(ms, NotOfFile(ms, f), MainReport(NotOfFile(ms, f)));
    }
  }

  lemma {:induction false} NotOfFileHasOthers(ms: seq<Match>, file: nat)
    ensures forall m :: m in ms && m.file0 != file ==> m in NotOfFile(ms, file)
  {
    if ms != [] {
      NotOfFileHasOthers(ms[..|ms| - 1], file);
    }
  }

  lemma MainInFront(ms: seq<Match>, others: seq<Match>, main: seq<Match>)
    requires ms != [] && Descending(ms) && MainOnes(main, others)
    requires forall m :: m in others <==> m in ms && m.file0 != ms[0].file0
    ensures MainOnes([ms[0]] + main, ms)
  {
    hide AtLeast, Descending, HasFile;
    var all := [ms[0]] + main;
    assert all[0] == ms[0] && all[1..] == main;
    TopIsHighest(ms);
    assert forall m :: m in main ==> m in ms && m.file0 != ms[0].file0;
    forall i, j | 0 <= i < j < |all| ensures all[i].file0 != all[j].file0 {
      assert all[j] == main[j - 1] && main[j - 1] in main;
      assert i > 0 ==> all[i] == main[i - 1];
    }
    forall m | m in ms ensures HasFile(all, m.file0) {
      assert m.file0 != ms[0].file0 ==> m in others;
      HasFileBehind(ms[0], main, m.file0);
    }
    forall i, m | 0 <= i < |all| && m in ms && m.file0 == all[i].file0 ensures AtLeast(all[i], m) {
      if i > 0 {
        assert all[i] == main[i - 1] && main[i - 1] in main && m in others;
      }
    }
  }

  lemma SameMembers(a: seq<Match>, b: seq<Match>)
    requires multiset(a) == multiset(b)
    ensures forall m :: m in a ==> m in b
  {
    forall m | m in a ensures m in b {
      assert m in multiset(a);
    }
  }

  lemma TopIsHighest(ms: seq<Match>)
    requires ms != [] && Descending(ms)
    ensures forall m :: m in ms ==> AtLeast(ms[0], m)
  {
  }

  lemma GroupInFront(g: seq<Match>, rest: seq<Match>, f: nat)
    requires g != [] && Descending(g) && Grouped(rest) && GroupsDescend(rest)
    requires forall m :: m in g ==> m.file0 == f
    requires forall m :: m in rest ==> m.file0 != f && AtLeast(g[0], m)
    ensures Grouped(g + rest) && GroupsDescend(g + rest)
  {
    var r := g + rest;
    assert forall i :: 0 <= i < |r| ==> r[i] == if i < |g| then g[i] else rest[i - |g|];
    forall i, j, k | 0 <= i < j < k < |r| && r[i].file0 == r[k].file0 ensures r[j].file0 == r[i].file0 {
      if i >= |g| {
        assert rest[i - |g|].file0 == rest[k - |g|].file0;
      }
    }
    forall i, j | 0 <= i < j < |r| && (r[i].file0 == r[j].file0 || FirstOfItsFile(r, i)) ensures AtLeast(r[i], r[j]) {
      if i >= |g| {
        if FirstOfItsFile(r, i) {
          forall h | 0 <= h < i - |g| ensures rest[h].file0 != rest[i - |g|].file0 {
            assert r[h + |g|].file0 != r[i].file0;
          }
          assert FirstOfItsFile(rest, i - |g|);
        }
        assert AtLeast(rest[i - |g|], rest[j - |g|]);
      } else if j >= |g| {
        assert r[0].file0 == f;
        assert i == 0;
      }
    }
  }

  /** Entries are made for texts that have tokens, so the shares exist. */
  lemma {:induction false} EntriesSized(c: Corpus, runs: seq<Run>)
    requires forall r :: r in runs ==> Length(c, r.text0) > 0 && Length(c, r.text1) > 0
    ensures Sized(AllEntered(c, runs))
  {
    hide Length, Find;
    if runs != [] {
      var init, r := runs[..|runs| - 1], runs[|runs| - 1];
      assert r in runs;
      EntriesSized(c, init);
    }
  }

  lemma ReportedEntriesSized(c: Corpus, o: Options)
    requires c.Valid()
    ensures Sized(AllEntered(c, AllRuns(c, o, c.newTexts)))
  {
    var runs := AllRuns(c, o, c.newTexts);
    AllRunsAdmissible(c, o, c.newTexts);
    forall r | r in runs ensures Length(c, r.text0) > 0 && Length(c, r.text1) > 0 {
      assert Admissible(c, o, r);
    }
    EntriesSized(c, runs);
  }

  // ---------- What the lines say ----------

  /** A line says of the tokens of a file that are found in another what percentage they are, at most 100. */
  ghost predicate LineTells(l: Line, m: Match, threshold: nat) {
    && l.file0 == m.file0 && l.file1 == m.file1 && l.percentage >= threshold
    && (if m.size >= m.size0 then l.percentage == 100
        else l.percentage * m.size0 <= 100 * m.size < (l.percentage + 1) * m.size0)
  }

  /** The share is not below the threshold. */
  ghost predicate Reaches(m: Match, threshold: nat) {
    threshold <= 100 && 100 * m.size >= threshold * m.size0
  }

  lemma LineForTells(m: Match, threshold: nat)
    requires m.size0 > 0
    ensures if Reaches(m, threshold)
            then |LineFor(m, threshold)| == 1 && LineTells(LineFor(m, threshold)[0], m, threshold)
            else LineFor(m, threshold) == []
  {
    var n, d := m.size * 100, m.size0;
    Quotient(n, d, threshold);
    if m.size >= d {
      assert n >= 100 * d;
      Quotient(n, d, 100);
    } else {
      assert n < 100 * d;
      Quotient(n, d, 100);
    }
  }

  lemma Quotient(n: nat, d: nat, t: nat)
    requires d > 0
    ensures n / d * d <= n < (n / d + 1) * d
    ensures n / d >= t <==> n >= t * d
  {
    var q := n / d;
    assert q * d <= n < q * d + d;
    if q >= t {
      assert q * d >= t * d;
    } else {
      assert (q + 1) * d <= t * d;
    }
  }

  /** The places of the entries that reach the threshold. */
  ghost function Picks(r: seq<Match>, threshold: nat): (ps: seq<nat>)
    ensures forall i :: 0 <= i < |ps| ==> ps[i] < |r| && Reaches(r[ps[i]], threshold)
    ensures forall i, j :: 0 <= i < j < |ps| ==> ps[i] < ps[j]
    ensures forall k: nat :: k < |r| && Reaches(r[k], threshold) ==> k in ps
  {
    if r == [] then []
    else
      var n := |r| - 1;
      var ps := Picks(r[..n], threshold);
      if Reaches(r[n], threshold) then ps + [n] else ps
  }

  /** The entries that reach the threshold, in their order. */
  ghost function Picked(r: seq<Match>, threshold: nat): (s: seq<Match>)
    ensures |s| == |Picks(r, threshold)| && forall i :: 0 <= i < |s| ==> s[i] == r[Picks(r, threshold)[i]]
  {
    var ps := Picks(r, threshold);
    seq(|ps|, i requires 0 <= i < |ps| => r[ps[i]])
  }

  lemma PickedNext(r: seq<Match>, m: Match, threshold: nat)
    ensures Picked(r + [m], threshold) == Picked(r, threshold) + if Reaches(m, threshold) then [m] else []
  {
    assert (r + [m])[..|r|] == r;
  }

  ghost predicate Tells(lines: seq<Line>, shown: seq<Match>, threshold: nat) {
    |lines| == |shown| && forall i :: 0 <= i < |lines| ==> LineTells(lines[i], shown[i], threshold)
  }

  /** There is a line for every entry that reaches the threshold, and no other. */
  lemma {:induction false} LinesTell(r: seq<Match>, threshold: nat)
    requires Sized(r)
    ensures Tells(Lines(r, threshold), Picked(r, threshold), threshold)
  {
    if r == [] {
      NonePicked(r, threshold);
    } else {
      var init, m := r[..|r| - 1], r[|r| - 1];
      LinesTell(init, threshold);
      LineForTells(m, threshold);
      PickedNext(init, m, threshold);
      LinesMore(init, m, threshold);
      assert r == init + [m];
      hide *;
      if Reaches(m, threshold) {
        TellsMore(Lines(init, threshold), Picked(init, threshold), LineFor(m, threshold), m, threshold);
      }
    }
  }

  lemma TellsMore(lines: seq<Line>, shown: seq<Match>, more: seq<Line>, m: Match, threshold: nat)
    requires Tells(lines, shown, threshold) && |more| == 1 && LineTells(more[0], m, threshold)
    ensures Tells(lines + more, shown + [m], threshold)
  {
    hide LineTells;
  }

  lemma NonePicked(r: seq<Match>, threshold: nat)
    requires r == []
    ensures Picked(r, threshold) == []
  {
  }

  lemma ReachesToo(p: Match, q: Match, threshold: nat)
    requires AtLeast(p, q) && Reaches(q, threshold) && q.size0 > 0
    ensures Reaches(p, threshold)
  {
    var a, b, t := p.size, p.size0, threshold;
    calc {
      (t * b) * q.size0;
    ==
      b * (t * q.size0);
    <=
      b * (100 * q.size);
    ==
      100 * (q.size * b);
    <=
      100 * (a * q.size0);
    ==
      (100 * a) * q.size0;
    }
    CancelFactor(100 * a, t * b, q.size0);
  }

  lemma CancelFactor(x: nat, y: nat, k: nat)
    requires k > 0 && y * k <= x * k
    ensures y <= x
  {
  }

  /** A top entry reaches the threshold if one in its group does. */
  lemma FirstPicked(r: seq<Match>, threshold: nat, i: nat)
    requires GroupsDescend(r) && Sized(r) && i < |Picked(r, threshold)| && FirstOfItsFile(Picked(r, threshold), i)
    ensures FirstOfItsFile(r, Picks(r, threshold)[i])
  {
    var ps, s := Picks(r, threshold), Picked(r, threshold);
    forall h | 0 <= h < ps[i] ensures r[h].file0 != r[ps[i]].file0 {
      if r[h].file0 == r[ps[i]].file0 {
        assert AtLeast(r[h], r[ps[i]]) && r[ps[i]] in r;
        ReachesToo(r[h], r[ps[i]], threshold);
        PickedBefore(r, threshold, h, i);
      }
    }
  }

  lemma PickedBefore(r: seq<Match>, threshold: nat, h: nat, i: nat)
    requires i < |Picks(r, threshold)| && h < Picks(r, threshold)[i] && Reaches(r[h], threshold)
    ensures exists k :: 0 <= k < i && Picked(r, threshold)[k] == r[h]
  {
    var ps := Picks(r, threshold);
    var k :| 0 <= k < |ps| && ps[k] == h;
    assert Picked(r, threshold)[k] == r[h];
  }

  /** The entries that are picked are still in groups. */
  lemma PickedGrouped(r: seq<Match>, threshold: nat)
    requires Grouped(r) && GroupsDescend(r) && Sized(r)
    ensures Grouped(Picked(r, threshold)) && GroupsDescend(Picked(r, threshold))
  {
    StillGrouped(r, threshold);
    hide Grouped, Picks, Picked, AtLeast, Reaches;
    var ps, s := Picks(r, threshold), Picked(r, threshold);
    forall i, j | 0 <= i < j < |s| && (s[i].file0 == s[j].file0 || FirstOfItsFile(s, i)) ensures AtLeast(s[i], s[j]) {
      if FirstOfItsFile(s, i) {
        FirstPicked(r, threshold, i);
      }
      hide FirstOfItsFile;
      assert AtLeast(r[ps[i]], r[ps[j]]);
    }
  }

  lemma StillGrouped(r: seq<Match>, threshold: nat)
    requires Grouped(r)
    ensures Grouped(Picked(r, threshold))
  {
    hide Picks, Picked, Reaches;
    var ps, s := Picks(r, threshold), Picked(r, threshold);
    forall i, j, k | 0 <= i < j < k < |s| && s[i].file0 == s[k].file0 ensures s[j].file0 == s[i].file0 {
      assert r[ps[i]].file0 == r[ps[k]].file0;
    }
  }

  // ---------- What the whole report says ----------

  /** These are the entries that a report on the ledger `ms` shows, in this order. */
  ghost predicate Presents(shown: seq<Match>, ms: seq<Match>, mainOnly: bool, threshold: nat) {
    && (forall m :: m in shown ==> m in ms && Reaches(m, threshold))
    && Grouped(shown) && GroupsDescend(shown)
    && if mainOnly then PresentsMain(shown, ms, threshold) else PresentsAll(shown, ms, threshold)
  }

  /** Every entry that reaches the threshold, as often as it is in the ledger. */
  ghost predicate PresentsAll(shown: seq<Match>, ms: seq<Match>, threshold: nat) {
    forall m :: Reaches(m, threshold) ==> multiset(shown)[m] == multiset(ms)[m]
  }

  /** One entry for every first file that has one which reaches the threshold: the one with the highest share. */
  ghost predicate PresentsMain(shown: seq<Match>, ms: seq<Match>, threshold: nat) {
    && (forall i, j :: 0 <= i < j < |shown| ==> shown[i].file0 != shown[j].file0)
    && (forall i, m :: 0 <= i < |shown| && m in ms && m.file0 == shown[i].file0 ==> AtLeast(shown[i], m))
    && (forall m :: m in ms && Reaches(m, threshold) ==> HasFile(shown, m.file0))
  }

  lemma {:induction false} PickedCount(r: seq<Match>, threshold: nat, m: Match)
    ensures multiset(Picked(r, threshold))[m] == if Reaches(m, threshold) then multiset(r)[m] else 0
  {
    hide Reaches, Picked;
    if r == [] {
      NonePicked(r, threshold);
    } else {
      var init, last := r[..|r| - 1], r[|r| - 1];
      PickedCount(init, threshold, m);
      PickedNext(init, last, threshold);
      assert r == init + [last];
    }
  }

  lemma PickedMembers(r: seq<Match>, threshold: nat)
    ensures forall m :: m in Picked(r, threshold) <==> m in r && Reaches(m, threshold)
  {
    forall m ensures m in Picked(r, threshold) <==> m in r && Reaches(m, threshold) {
      PickedCount(r, threshold, m);
      assert m in Picked(r, threshold) <==> m in multiset(Picked(r, threshold));
      assert m in r <==> m in multiset(r);
    }
  }

  lemma {:induction false} MainDescends(ms: seq<Match>)
    requires Descending(ms)
    ensures Descending(MainReport(ms))
    decreases |ms|
  {
    if ms != [] {
      var f := ms[0].file0;
      Parted(ms, f);
      TopIsOfItsFile(ms);
      PartsDescend(ms, f);
      PartMembers(ms, f);
      var others := NotOfFile(ms, f);
      MainDescends(others);
      MainReportIsMain(others);
      TopIsHighest(ms);
      DescendingBehind(ms[0], MainReport(others));
    }
  }

  lemma DescendingBehind(m: Match, ms: seq<Match>)
    requires Descending(ms) && forall x :: x in ms ==> AtLeast(m, x)
    ensures Descending([m] + ms)
  {
    hide AtLeast;
  }

  lemma AllPresents(sorted: seq<Match>, ms: seq<Match>, threshold: nat)
    requires multiset(sorted) == multiset(ms) && Descending(sorted) && Sized(sorted)
    ensures Presents(Picked(Report(sorted), threshold), ms, false, threshold)
  {
    var r := Report(sorted);
    ReportIsGrouped(sorted);
    ReportVisitsAll(sorted);
    PickedGrouped(r, threshold);
    PickedMembers(r, threshold);
    SameMembers(r, ms);
    var shown := Picked(r, threshold);
    hide *;
    forall m | Reaches(m, threshold) ensures multiset(shown)[m] == multiset(ms)[m] {
      PickedCount(r, threshold, m);
    }
    PresentedAll(shown, ms, threshold);
  }

  lemma PresentedAll(shown: seq<Match>, ms: seq<Match>, threshold: nat)
    requires forall m :: m in shown ==> m in ms && Reaches(m, threshold)
    requires Grouped(shown) && GroupsDescend(shown)
    requires forall m :: Reaches(m, threshold) ==> multiset(shown)[m] == multiset(ms)[m]
    ensures Presents(shown, ms, false, threshold)
  {
  }

  lemma MainPresents(sorted: seq<Match>, ms: seq<Match>, threshold: nat)
    requires multiset(sorted) == multiset(ms) && Descending(sorted) && Sized(sorted)
    ensures Presents(Picked(MainReport(sorted), threshold), ms, true, threshold)
  {
    var r := MainReport(sorted);
    MainReportIsMain(sorted);
    MainDescends(sorted);
    SameMembers(sorted, ms);
    SameMembers(ms, sorted);
    hide Descending, AtLeast, HasFile, Picked, Picks, Reaches, MainReport;
    assert MainOnes(r, ms);
    MainGrouped(r, ms);
    PickedGrouped(r, threshold);
    PickedMembers(r, threshold);
    MainPicked(r, ms, threshold);
    hide MainOnes, Grouped, GroupsDescend, PresentsMain;
  }

  lemma MainGrouped(r: seq<Match>, ms: seq<Match>)
    requires MainOnes(r, ms) && Descending(r)
    ensures Grouped(r) && GroupsDescend(r)
  {
    hide AtLeast, HasFile;
  }

  lemma MainPicked(r: seq<Match>, ms: seq<Match>, threshold: nat)
    requires MainOnes(r, ms) && Sized(ms)
    ensures PresentsMain(Picked(r, threshold), ms, threshold)
  {
    forall m | m in ms && Reaches(m, threshold) ensures HasFile(Picked(r, threshold), m.file0) {
      MainReaches(r, ms, threshold, m);
    }
    var ps, shown := Picks(r, threshold), Picked(r, threshold);
    hide AtLeast, HasFile, Picks, Picked, Reaches;
    forall i, j | 0 <= i < j < |shown| ensures shown[i].file0 != shown[j].file0 {
      assert r[ps[i]].file0 != r[ps[j]].file0;
    }
    forall i, m | 0 <= i < |shown| && m in ms && m.file0 == shown[i].file0 ensures AtLeast(shown[i], m) {
      assert AtLeast(r[ps[i]], m);
    }
  }

  lemma MainReaches(r: seq<Match>, ms: seq<Match>, threshold: nat, m: Match)
    requires MainOnes(r, ms) && Sized(ms) && m in ms && Reaches(m, threshold)
    ensures HasFile(Picked(r, threshold), m.file0)
  {
    assert HasFile(r, m.file0);
    var i :| 0 <= i < |r| && r[i].file0 == m.file0;
    ReachesToo(r[i], m, threshold);
    var ps := Picks(r, threshold);
    var k :| 0 <= k < |ps| && ps[k] == i;
    assert Picked(r, threshold)[k].file0 == m.file0;
  }

  /** The lines tell of the entries that a report on the ledger shows. */
  ghost predicate IsTold(lines: seq<Line>, ms: seq<Match>, mainOnly: bool, threshold: nat) {
    exists shown :: Tells(lines, shown, threshold) && Presents(shown, ms, mainOnly, threshold)
  }

  lemma ReportIsTold(sorted: seq<Match>, lines: seq<Line>, ms: seq<Match>, mainOnly: bool, threshold: nat)
    requires IsReportOn(sorted, lines, ms, mainOnly, threshold)
    ensures IsTold(lines, ms, mainOnly, threshold)
  {
    LinesTell(Shown(sorted, mainOnly), threshold);
    if mainOnly {
      MainPresents(sorted, ms, threshold);
    } else {
      AllPresents(sorted, ms, threshold);
    }
  }

  // ---------- What it says about the texts ----------

  ghost predicate Pair(c: Corpus, a: nat, b: nat) {
    a < |c.texts| && b < |c.texts| && a != b
  }

  /** What a line says is so: how many of the tokens of the first text are in runs that it shares with the second. */
  ghost predicate LineIsTrue(c: Corpus, runs: seq<Run>, l: Line, threshold: nat)
    requires c.Valid()
  {
    && Pair(c, l.file0, l.file1) && l.percentage >= threshold
    && var total, length := Total(runs, l.file0, l.file1), c.texts[l.file0].limit - c.texts[l.file0].start;
    && total > 0 && length > 0
    && (if total >= length then l.percentage == 100
        else l.percentage * length <= 100 * total < (l.percentage + 1) * length)
  }

  /** Two texts have runs in common, and their share reaches the threshold. */
  ghost predicate MustShow(c: Corpus, runs: seq<Run>, a: nat, b: nat, threshold: nat)
    requires c.Valid()
  {
    && Pair(c, a, b) && Total(runs, a, b) > 0 && threshold <= 100
    && 100 * Total(runs, a, b) >= threshold * (c.texts[a].limit - c.texts[a].start)
  }

  /** The share in one line is no lower than that in another. */
  ghost predicate NoLower(c: Corpus, runs: seq<Run>, l: Line, k: Line)
    requires c.Valid() && Pair(c, l.file0, l.file1) && Pair(c, k.file0, k.file1)
  {
    Total(runs, l.file0, l.file1) * (c.texts[k.file0].limit - c.texts[k.file0].start) >=
    Total(runs, k.file0, k.file1) * (c.texts[l.file0].limit - c.texts[l.file0].start)
  }

  ghost predicate HasLine(lines: seq<Line>, a: nat, b: nat) {
    exists i :: 0 <= i < |lines| && lines[i].file0 == a && lines[i].file1 == b
  }

  ghost predicate HasLineOf(lines: seq<Line>, a: nat) {
    exists i :: 0 <= i < |lines| && lines[i].file0 == a
  }

  ghost predicate FirstLine(lines: seq<Line>, i: nat)
    requires i < |lines|
  {
    forall h :: 0 <= h < i ==> lines[h].file0 != lines[i].file0
  }

  /** All lines are true, no two are about the same two texts, and they are in groups with descending shares. */
  ghost predicate Truthful(c: Corpus, runs: seq<Run>, lines: seq<Line>, threshold: nat)
    requires c.Valid()
  {
    && (forall i :: 0 <= i < |lines| ==> LineIsTrue(c, runs, lines[i], threshold))
    && (forall i, j :: 0 <= i < j < |lines| ==> lines[i].file0 != lines[j].file0 || lines[i].file1 != lines[j].file1)
    && (forall i, j, k :: 0 <= i < j < k < |lines| && lines[i].file0 == lines[k].file0 ==>
          lines[j].file0 == lines[i].file0)
    && (forall i, j :: 0 <= i < j < |lines| && (lines[i].file0 == lines[j].file0 || FirstLine(lines, i)) ==>
          NoLower(c, runs, lines[i], lines[j]))
  }

  /** Every two texts that must be shown have their line. */
  ghost predicate ShowsAll(c: Corpus, runs: seq<Run>, lines: seq<Line>, threshold: nat)
    requires c.Valid()
  {
    forall a: nat, b: nat :: MustShow(c, runs, a, b, threshold) ==> HasLine(lines, a, b)
  }

  /** Every text that must be shown has one line, for the text that it shares most with. */
  ghost predicate ShowsMain(c: Corpus, runs: seq<Run>, lines: seq<Line>, threshold: nat)
    requires c.Valid()
  {
    && (forall i, j :: 0 <= i < j < |lines| ==> lines[i].file0 != lines[j].file0)
    && (forall i, b: nat :: 0 <= i < |lines| && Pair(c, lines[i].file0, b) ==>
          Total(runs, lines[i].file0, b) <= Total(runs, lines[i].file0, lines[i].file1))
    && (forall a: nat, b: nat :: MustShow(c, runs, a, b, threshold) ==> HasLineOf(lines, a))
  }

  /** All runs have tokens, and lie in texts that have tokens. */
  ghost predicate Substantial(c: Corpus, runs: seq<Run>) {
    forall r :: r in runs ==> r.size > 0 && Length(c, r.text0) > 0 && Length(c, r.text1) > 0
  }

  lemma {:induction false} EntriesPositive(c: Corpus, runs: seq<Run>)
    requires Substantial(c, runs)
    ensures forall m :: m in AllEntered(c, runs) ==> m.size > 0
  {
    hide Length, Find;
    if runs != [] {
      var init, r := runs[..|runs| - 1], runs[|runs| - 1];
      assert r in runs;
      EntriesPositive(c, init);
    }
  }

  lemma SizeForEntry(ms: seq<Match>, i: nat)
    requires OneEach(ms) && i < |ms|
    ensures SizeFor(ms, ms[i].file0, ms[i].file1) == ms[i].size
  {
    FindIs(ms, ms[i].file0, ms[i].file1, i);
  }

  lemma EntryFor(ms: seq<Match>, a: nat, b: nat)
    requires SizeFor(ms, a, b) > 0
    ensures exists m :: m in ms && m.file0 == a && m.file1 == b
  {
    var k := Find(ms, a, b);
    assert ms[k] in ms;
  }

  /** What an entry holds. */
  lemma EntryIs(c: Corpus, runs: seq<Run>, m: Match)
    requires c.Valid() && Substantial(c, runs) && m in AllEntered(c, runs)
    ensures Pair(c, m.file0, m.file1) && m.size == Total(runs, m.file0, m.file1) > 0
    ensures m.size0 == c.texts[m.file0].limit - c.texts[m.file0].start > 0
  {
    var ms := AllEntered(c, runs);
    LedgerIsInOrder(c, runs);
    EntriesPositive(c, runs);
    EntriesSized(c, runs);
    var i: nat :| i < |ms| && ms[i] == m;
    SizeForEntry(ms, i);
    EntriesHoldTotals(c, runs, m.file0, m.file1);
    EntryFor(ms, m.file1, m.file0);
    var k :| k in ms && k.file0 == m.file1 && k.file1 == m.file0;
    assert k.size0 == Length(c, k.file0);
  }

  lemma OnceEach(ms: seq<Match>, m: Match)
    requires OneEach(ms)
    ensures multiset(ms)[m] <= 1
  {
    if m in ms {
      var i :| 0 <= i < |ms| && ms[i] == m;
      TakenAt(ms, i);
      var rest := ms[..i] + ms[i + 1..];
      assert forall k :: 0 <= k < |rest| ==> rest[k] == if k < i then ms[k] else ms[k + 1];
      assert m !in rest;
      assert m !in multiset(rest);
    } else {
      assert m !in multiset(ms);
    }
  }

  lemma Twice(s: seq<Match>, i: nat, j: nat)
    requires i < j < |s| && s[i] == s[j]
    ensures multiset(s)[s[i]] >= 2
  {
    TakenAt(s, i);
    var rest := s[..i] + s[i + 1..];
    assert rest[j - 1] == s[j];
    assert s[i] in multiset(rest);
  }

  /** No two of the entries that are shown are about the same two files. */
  lemma ShownOnce(shown: seq<Match>, ms: seq<Match>, threshold: nat, i: nat, j: nat)
    requires OneEach(ms) && PresentsAll(shown, ms, threshold) && i < j < |shown|
    requires forall m :: m in shown ==> m in ms && Reaches(m, threshold)
    ensures shown[i].file0 != shown[j].file0 || shown[i].file1 != shown[j].file1
  {
    var m, n := shown[i], shown[j];
    assert m in shown && n in shown;
    if m.file0 == n.file0 && m.file1 == n.file1 {
      var k :| 0 <= k < |ms| && ms[k] == m;
      var l :| 0 <= l < |ms| && ms[l] == n;
      assert k == l;
      Twice(shown, i, j);
      OnceEach(ms, m);
    }
  }

  /** A line about an entry is true. */
  lemma TellsTruth(c: Corpus, runs: seq<Run>, l: Line, m: Match, threshold: nat)
    requires c.Valid() && Substantial(c, runs) && m in AllEntered(c, runs) && LineTells(l, m, threshold)
    ensures LineIsTrue(c, runs, l, threshold)
  {
    EntryIs(c, runs, m);
    hide Total, Substantial, AllEntered;
  }

  /** Which entry must be shown. */
  lemma MustShowEntry(c: Corpus, runs: seq<Run>, a: nat, b: nat, threshold: nat) returns (m: Match)
    requires c.Valid() && Substantial(c, runs) && MustShow(c, runs, a, b, threshold)
    ensures m in AllEntered(c, runs) && m.file0 == a && m.file1 == b && Reaches(m, threshold)
  {
    EntriesHoldTotals(c, runs, a, b);
    EntryFor(AllEntered(c, runs), a, b);
    m :| m in AllEntered(c, runs) && m.file0 == a && m.file1 == b;
    EntryIs(c, runs, m);
  }

  /** Lines and entries, one by one. */
  ghost predicate Accounts(c: Corpus, runs: seq<Run>, lines: seq<Line>, shown: seq<Match>, threshold: nat)
    requires c.Valid()
  {
    && |lines| == |shown|
    && forall i :: 0 <= i < |lines| ==> Account(c, runs, lines[i], shown[i], threshold)
  }

  ghost predicate Account(c: Corpus, runs: seq<Run>, l: Line, m: Match, threshold: nat)
    requires c.Valid()
  {
    && LineIsTrue(c, runs, l, threshold) && m in AllEntered(c, runs)
    && l.file0 == m.file0 && l.file1 == m.file1
    && m.size == Total(runs, m.file0, m.file1)
    && m.size0 == c.texts[m.file0].limit - c.texts[m.file0].start
  }

  lemma TellsAccounts(c: Corpus, runs: seq<Run>, lines: seq<Line>, shown: seq<Match>, threshold: nat)
    requires c.Valid() && Substantial(c, runs) && Tells(lines, shown, threshold)
    requires forall m :: m in shown ==> m in AllEntered(c, runs)
    ensures Accounts(c, runs, lines, shown, threshold)
  {
    forall i | 0 <= i < |lines| ensures Account(c, runs, lines[i], shown[i], threshold) {
      assert shown[i] in shown;
      TellsTruth(c, runs, lines[i], shown[i], threshold);
      EntryIs(c, runs, shown[i]);
    }
  }

  lemma NoLowerLine(c: Corpus, runs: seq<Run>, l: Line, m: Match, k: Line, n: Match, threshold: nat)
    requires c.Valid() && Account(c, runs, l, m, threshold) && Account(c, runs, k, n, threshold) && AtLeast(m, n)
    ensures NoLower(c, runs, l, k)
  {
  }

  lemma AccountsTruthful(c: Corpus, runs: seq<Run>, lines: seq<Line>, shown: seq<Match>, threshold: nat)
    requires c.Valid() && Accounts(c, runs, lines, shown, threshold) && Grouped(shown) && GroupsDescend(shown)
    requires forall i, j :: 0 <= i < j < |shown| ==>
      shown[i].file0 != shown[j].file0 || shown[i].file1 != shown[j].file1
    ensures Truthful(c, runs, lines, threshold)
  {
    hide Total, AtLeast, NoLower, AllEntered;
    assert forall i :: 0 <= i < |lines| ==>
      LineIsTrue(c, runs, lines[i], threshold) && lines[i].file0 == shown[i].file0 && lines[i].file1 == shown[i].file1;
    forall i, j | 0 <= i < j < |lines| && (lines[i].file0 == lines[j].file0 || FirstLine(lines, i))
      ensures NoLower(c, runs, lines[i], lines[j])
    {
      assert FirstLine(lines, i) ==> FirstOfItsFile(shown, i);
      NoLowerLine(c, runs, lines[i], shown[i], lines[j], shown[j], threshold);
    }
  }

  lemma AccountsShowAll(c: Corpus, runs: seq<Run>, lines: seq<Line>, shown: seq<Match>, threshold: nat)
    requires c.Valid() && Substantial(c, runs) && Accounts(c, runs, lines, shown, threshold)
    requires PresentsAll(shown, AllEntered(c, runs), threshold)
    ensures ShowsAll(c, runs, lines, threshold)
  {
    hide Total, Substantial, AllEntered, LineIsTrue, Reaches;
    forall a: nat, b: nat | MustShow(c, runs, a, b, threshold) ensures HasLine(lines, a, b) {
      var m := MustShowEntry(c, runs, a, b, threshold);
      assert m in multiset(AllEntered(c, runs));
      assert m in multiset(shown);
      var i :| 0 <= i < |shown| && shown[i] == m;
      assert Account(c, runs, lines[i], shown[i], threshold);
    }
  }

  lemma AccountsShowMain(c: Corpus, runs: seq<Run>, lines: seq<Line>, shown: seq<Match>, threshold: nat)
    requires c.Valid() && Substantial(c, runs) && Accounts(c, runs, lines, shown, threshold)
    requires PresentsMain(shown, AllEntered(c, runs), threshold)
    ensures ShowsMain(c, runs, lines, threshold)
  {
    hide Substantial, AllEntered, LineIsTrue, Reaches, AtLeast, HasFile;
    assert forall i :: 0 <= i < |lines| ==> lines[i].file0 == shown[i].file0;
    forall a: nat, b: nat | MustShow(c, runs, a, b, threshold) ensures HasLineOf(lines, a) {
      var m := MustShowEntry(c, runs, a, b, threshold);
      HasLineOfFile(lines, shown, a);
    }
    forall i, b: nat | 0 <= i < |lines| && Pair(c, lines[i].file0, b)
      ensures Total(runs, lines[i].file0, b) <= Total(runs, lines[i].file0, lines[i].file1)
    {
      assert Account(c, runs, lines[i], shown[i], threshold);
      MainIsMost(c, runs, shown[i], b);
    }
  }

  lemma HasLineOfFile(lines: seq<Line>, shown: seq<Match>, a: nat)
    requires |lines| == |shown| && forall i :: 0 <= i < |lines| ==> lines[i].file0 == shown[i].file0
    requires HasFile(shown, a)
    ensures HasLineOf(lines, a)
  {
  }

  lemma MainIsMost(c: Corpus, runs: seq<Run>, m: Match, b: nat)
    requires c.Valid() && Substantial(c, runs) && m in AllEntered(c, runs) && Pair(c, m.file0, b)
    requires forall n :: n in AllEntered(c, runs) && n.file0 == m.file0 ==> AtLeast(m, n)
    ensures Total(runs, m.file0, b) <= Total(runs, m.file0, m.file1)
  {
    EntryIs(c, runs, m);
    if Total(runs, m.file0, b) > 0 {
      EntriesHoldTotals(c, runs, m.file0, b);
      EntryFor(AllEntered(c, runs), m.file0, b);
      var n :| n in AllEntered(c, runs) && n.file0 == m.file0 && n.file1 == b;
      EntryIs(c, runs, n);
      CancelFactor(m.size, n.size, m.size0);
    }
  }

  /** The report on the runs of a comparison, in terms of the texts and the runs. */
  lemma ToldIsTruthful(c: Corpus, runs: seq<Run>, lines: seq<Line>, mainOnly: bool, threshold: nat)
    requires c.Valid() && Substantial(c, runs) && IsTold(lines, AllEntered(c, runs), mainOnly, threshold)
    ensures Truthful(c, runs, lines, threshold)
    ensures if mainOnly then ShowsMain(c, runs, lines, threshold) else ShowsAll(c, runs, lines, threshold)
  {
    var ms := AllEntered(c, runs);
    var shown: seq<Match> :| Tells(lines, shown, threshold) && Presents(shown, ms, mainOnly, threshold);
    LedgerIsInOrder(c, runs);
    TellsAccounts(c, runs, lines, shown, threshold);
    hide Accounts, Truthful, ShowsAll, ShowsMain, Grouped, GroupsDescend, OneEach, Described, AllEntered, Reaches;
    hide Substantial, Tells, PresentsAll, AtLeast;
    forall i, j | 0 <= i < j < |shown|
      ensures shown[i].file0 != shown[j].file0 || shown[i].file1 != shown[j].file1
    {
      if !mainOnly {
        ShownOnce(shown, ms, threshold, i, j);
      }
    }
    AccountsTruthful(c, runs, lines, shown, threshold);
    if mainOnly {
      AccountsShowMain(c, runs, lines, shown, threshold);
    } else {
      AccountsShowAll(c, runs, lines, shown, threshold);
    }
  }

  // ---------- The ledger as a list ----------

  class Ledger {
    var start: Link?<Match>
    ghost var chain: seq<Link<Match>>
    ghost var nodes: set<Link<Match>>

    ghost predicate Valid()
      reads this, chain, nodes
    {
      Chain(start, chain) && Among(chain, nodes)
    }

    ghost function Matches(): seq<Match>
      reads this, chain
    {
      Items(chain)
    }

    constructor ()
      ensures Valid() && Matches() == [] && nodes == {}
    {
      start, chain, nodes := null, [], {};
    }

    /** Finds the entry for two files; if there is none, the last entry. */
    method Locate(file0: nat, file1: nat) returns (m: Link?<Match>, last: Link?<Match>)
      requires Valid()
      ensures m == At(chain, Find(Matches(), file0, file1)) && last == Last(chain[..Find(Matches(), file0, file1)])
    {
      ghost var ms, k: nat := Matches(), 0;
      m, last := start, null;
      while m != null
        invariant k <= |chain| && m == At(chain, k) && last == Last(chain[..k])
        invariant forall i :: 0 <= i < k ==> !IsFor(ms[i], file0, file1)
        decreases |chain| - k
      {
        assert m == chain[k] && m.item == ms[k];
        if IsFor(m.item, file0, file1) {
          break;
        }
        m, last, k := m.next, m, k + 1;
      }
      FindIs(ms, file0, file1, k);
    }

    /** Adds to the entry for two files, or makes a new one at the end of the list. */
    method Add(file0: nat, file1: nat, size: nat, size0: nat)
      requires Valid()
      modifies this, nodes
      ensures Valid() && fresh(nodes - old(nodes))
      ensures Matches() == Added(old(Matches()), file0, file1, size, size0)
    {
      hide Find, Items, Last, Chain;
      var m, last := Locate(file0, file1);
      ghost var k := Find(Matches(), file0, file1);
      if m != null {
        Update(m, size, k);
      } else {
        assert chain[..k] == chain;
        AddLast(last, Match(file0, file1, size, size0));
      }
    }

    method AddLast(last: Link?<Match>, m: Match)
      requires Valid() && last == Last(chain)
      modifies this, nodes`next
      ensures Valid() && fresh(nodes - old(nodes))
      ensures Matches() == old(Matches()) + [m]
    {
      hide Chain, Items, Last, Among;
      var l := new Link(m);
      MoreAmong(chain, l, nodes);
      start := Append(start, last, l, chain);
      OneMoreItem(chain, l);
      chain, nodes := chain + [l], nodes + {l};
    }

    method Update(m: Link<Match>, size: nat, ghost k: nat)
      requires Valid() && k < |chain| && m == chain[k]
      modifies m`item
      ensures Valid() && Matches() == old(Matches())[k := old(m.item).(size := old(m.item.size) + size)]
    {
      hide Among;
      ghost var ms := Matches();
      m.item := m.item.(size := m.item.size + size);
      assert forall i :: 0 <= i < |chain| ==> Matches()[i] == ms[k := m.item][i];
    }

    /** Enters a run: nothing if it is within one file, else in both directions. */
    method Enter(c: Corpus, r: Run)
      requires Valid() && c.Valid() && r.text0 < |c.texts| && r.text1 < |c.texts|
      modifies this, nodes
      ensures Valid() && fresh(nodes - old(nodes))
      ensures Matches() == Entered(old(Matches()), c, r)
    {
      hide Valid, Matches, Entered, Added, Corpus.Valid;
      if r.text0 == r.text1 {
        EnteredWithin(Matches(), c, r);
        return;
      }
      BothWays(Matches(), c, r);
      AddBoth(r.text0, r.text1, r.size, c.texts[r.text0].limit - c.texts[r.text0].start,
              c.texts[r.text1].limit - c.texts[r.text1].start);
    }

    method AddBoth(file0: nat, file1: nat, size: nat, size0: nat, size1: nat)
      requires Valid()
      modifies this, nodes
      ensures Valid() && fresh(nodes - old(nodes))
      ensures Matches() == Added(Added(old(Matches()), file0, file1, size, size0), file1, file0, size, size1)
    {
      hide Valid, Matches, Added;
      Add(file0, file1, size, size0);
      Add(file1, file0, size, size1);
    }

    /** Sorts the ledger: the highest shares come first. */
    method SortMatches()
      requires Valid() && Sized(Matches())
      modifies this, nodes`next
      ensures Valid() && nodes == old(nodes)
      ensures multiset(Matches()) == multiset(old(Matches())) && Descending(Matches()) && Sized(Matches())
    {
      HigherAsymmetric();
      hide Chain, Ordered, Asymmetric, Items, Sized, Descending;
      var head;
      ghost var sorted;
      head, sorted := Sort(start, Higher, chain);
      SamePlaces(sorted, chain);
      SameItems(sorted, chain);
      StillSized(Items(chain), Items(sorted));
      SortedDescends(sorted);
      start, chain := head, sorted;
    }

    /**
      Takes the entries for the first file of the top entry off the list, and returns their lines;
      when only main contributors are wanted, only that of the top entry.
     */
    method RemoveTop(mainOnly: bool, threshold: nat) returns (lines: seq<Line>)
      requires Valid() && Sized(Matches()) && start != null
      modifies this, nodes`next
      ensures Valid() && nodes == old(nodes) && old(Matches()) != []
      ensures Matches() == NotOfFile(old(Matches()), old(Matches())[0].file0)
      ensures lines == Lines(Visited(old(Matches()), mainOnly), threshold)
    {
      hide Chain, Items, Seen, Sized, Last, At, Lines, Among;
      ghost var ms := Matches();
      FirstOfList(start, chain, nodes);
      SeenTop(ms, mainOnly, threshold);
      ghost var k: nat, a: seq<Link<Match>>, b: seq<Link<Match>> := 1, chain[..0], chain[1..];
      var file := start.item.file0;
      var prev: Link?<Match>, m: Link?<Match> := null, start;
      lines := LineFor(m.item, threshold);
      start, m := Unlink(start, prev, m, a, b);
      while m != null
        invariant nodes == old(nodes) && Chain(start, a + b) && Among(a + b, nodes) && m == At(b, 0) && prev == Last(a)
        invariant Seen(ms, k, mainOnly, threshold, lines, Items(a), Items(b))
        decreases |b|
      {
        MiddleOfList(start, a, b, nodes);
        ghost var c := b[1..];
        SeenNext(ms, k, mainOnly, threshold, lines, Items(a), Items(b));
        if m.item.file0 == file {
          if !mainOnly {
            lines := lines + LineFor(m.item, threshold);
          }
          start, m := Unlink(start, prev, m, a, c);
        } else {
          a := a + [m];
          prev, m := m, m.next;
        }
        b, k := c, k + 1;
      }
      EndOfList(a, b);
      SeenAll(ms, k, mainOnly, threshold, lines, Items(a));
      chain := a;
    }

    /** Sorts the ledger, and prints it group by group, taking it down on the way. */
    method Show(mainOnly: bool, threshold: nat) returns (lines: seq<Line>)
      requires Valid() && Sized(Matches())
      modifies this, nodes`next
      ensures Valid() && start == null && Matches() == []
      ensures IsReport(lines, old(Matches()), mainOnly, threshold) && IsTold(lines, old(Matches()), mainOnly, threshold)
    {
      SortMatches();
      ghost var sorted := Matches();
      lines := PrintAll(mainOnly, threshold);
      assert IsReportOn(sorted, lines, old(Matches()), mainOnly, threshold);
      ReportIsTold(sorted, lines, old(Matches()), mainOnly, threshold);
    }

    /** Prints and removes all groups. */
    method PrintAll(mainOnly: bool, threshold: nat) returns (lines: seq<Line>)
      requires Valid() && Sized(Matches())
      modifies this, nodes`next
      ensures Valid() && start == null && Matches() == []
      ensures lines == Lines(Shown(old(Matches()), mainOnly), threshold)
    {
      hide Items, Chain, Among, Sized, Lines, Shown;
      lines := [];
      while start != null
        invariant Valid() && Sized(Matches()) && nodes == old(nodes)
        invariant lines + Lines(Shown(Matches(), mainOnly), threshold) ==
                  old(Lines(Shown(Matches(), mainOnly), threshold))
        decreases |Matches()|
      {
        ghost var ms := Matches();
        EmptyList(start, chain);
        ShownNext(ms, mainOnly, threshold);
        var more := RemoveTop(mainOnly, threshold);
        lines := lines + more;
      }
      EmptyList(start, chain);
      NothingShown(mainOnly, threshold);
    }
  }

  /** What is shown of the first group: all of it, or its top. */
  ghost function Visited(ms: seq<Match>, mainOnly: bool): (r: seq<Match>)
    requires ms != []
    ensures Sized(ms) ==> Sized(r)
  {
    if mainOnly then [ms[0]] else OfFile(ms, ms[0].file0)
  }

  /** What is shown altogether. */
  ghost function Shown(ms: seq<Match>, mainOnly: bool): (r: seq<Match>)
    ensures Sized(ms) ==> Sized(r)
  {
    if mainOnly then MainReport(ms) else Report(ms)
  }

  /** The lines are those of the entries, sorted by share and then grouped. */
  ghost predicate IsReport(lines: seq<Line>, ms: seq<Match>, mainOnly: bool, threshold: nat) {
    exists sorted :: IsReportOn(sorted, lines, ms, mainOnly, threshold)
  }

  ghost predicate IsReportOn(sorted: seq<Match>, lines: seq<Line>, ms: seq<Match>, mainOnly: bool, threshold: nat) {
    && multiset(sorted) == multiset(ms) && Descending(sorted) && Sized(sorted)
    && lines == Lines(Shown(sorted, mainOnly), threshold)
  }

  lemma NothingShown(mainOnly: bool, threshold: nat)
    ensures Shown([], mainOnly) == [] && Lines([], threshold) == []
  {
  }

  lemma ShownNext(ms: seq<Match>, mainOnly: bool, threshold: nat)
    requires ms != [] && Sized(ms)
    ensures var rest := NotOfFile(ms, ms[0].file0);
      && |rest| < |ms| && Sized(rest)
      && Lines(Shown(ms, mainOnly), threshold) ==
         Lines(Visited(ms, mainOnly), threshold) + Lines(Shown(rest, mainOnly), threshold)
  {
    LinesConcat(Visited(ms, mainOnly), Shown(NotOfFile(ms, ms[0].file0), mainOnly), threshold);
    Parted(ms, ms[0].file0);
    TopIsOfItsFile(ms);
  }

  /** The lines of the first group when `k` entries have been seen, and the entries that are kept. */
  ghost predicate Seen(ms: seq<Match>, k: nat, mainOnly: bool, threshold: nat, lines: seq<Line>, kept: seq<Match>,
                       rest: seq<Match>) {
    && 1 <= k <= |ms| && Sized(ms)
    && kept == NotOfFile(ms[..k], ms[0].file0)
    && rest == ms[k..]
    && lines == Lines(Visited(ms[..k], mainOnly), threshold)
  }

  lemma SeenTop(ms: seq<Match>, mainOnly: bool, threshold: nat)
    requires ms != [] && Sized(ms)
    ensures ms[0].size0 > 0 && Seen(ms, 1, mainOnly, threshold, LineFor(ms[0], threshold), [], ms[1..])
  {
    var one := ms[..1];
    assert one[..0] == [] && OfFile(one[..0], ms[0].file0) == [] && NotOfFile(one[..0], ms[0].file0) == [];
    assert [ms[0]][..0] == [] && OfFile(one, ms[0].file0) == [ms[0]];
  }

  lemma SeenNext(ms: seq<Match>, k: nat, mainOnly: bool, threshold: nat, lines: seq<Line>, kept: seq<Match>,
                 rest: seq<Match>)
    requires Seen(ms, k, mainOnly, threshold, lines, kept, rest) && rest != []
    ensures rest[0].size0 > 0
    ensures if rest[0].file0 != ms[0].file0
            then Seen(ms, k + 1, mainOnly, threshold, lines, kept + [rest[0]], rest[1..])
            else Seen(ms, k + 1, mainOnly, threshold,
              if mainOnly then lines else lines + LineFor(rest[0], threshold), kept, rest[1..])
  {
    var now := ms[..k + 1];
    assert now[..k] == ms[..k] && now[k] == ms[k] && now[0] == ms[0] && ms[..k][0] == ms[0];
    assert rest[0] == ms[k] && rest[0] in ms && rest[1..] == ms[k + 1..];
    var v := OfFile(ms[..k], ms[0].file0);
    assert (v + [ms[k]])[..|v|] == v;
    assert OfFile(now, ms[0].file0) == if ms[k].file0 == ms[0].file0 then v + [ms[k]] else v;
  }

  lemma SeenAll(ms: seq<Match>, k: nat, mainOnly: bool, threshold: nat, lines: seq<Line>, kept: seq<Match>)
    requires Seen(ms, k, mainOnly, threshold, lines, kept, [])
    ensures kept == NotOfFile(ms, ms[0].file0) && lines == Lines(Visited(ms, mainOnly), threshold)
  {
    assert ms[..k] == ms;
  }

  lemma LinesMore(s: seq<Match>, m: Match, threshold: nat)
    requires Sized(s) && m.size0 > 0
    ensures Sized(s + [m]) && Lines(s + [m], threshold) == Lines(s, threshold) + LineFor(m, threshold)
  {
    assert (s + [m])[..|s|] == s;
  }

  lemma {:induction false} LinesConcat(s: seq<Match>, t: seq<Match>, threshold: nat)
    requires Sized(s) && Sized(t)
    ensures Sized(s + t) && Lines(s + t, threshold) == Lines(s, threshold) + Lines(t, threshold)
  {
    hide LineFor;
    if t == [] {
      assert s + t == s;
    } else {
      var init, m := t[..|t| - 1], t[|t| - 1];
      LinesConcat(s, init, threshold);
      LinesMore(s + init, m, threshold);
      assert s + t == s + init + [m] && Lines(t, threshold) == Lines(init, threshold) + LineFor(m, threshold);
    }
  }

  /** Enters all runs of a comparison and shows the percentages. */
  method ShowPercentages(c: Corpus, o: Options, runs: seq<Run>, mainOnly: bool, threshold: nat)
    returns (lines: seq<Line>)
    requires c.Valid() && runs == AllRuns(c, o, c.newTexts)
    ensures IsReport(lines, AllEntered(c, runs), mainOnly, threshold)
    ensures Truthful(c, runs, lines, threshold)
    ensures if mainOnly then ShowsMain(c, runs, lines, threshold) else ShowsAll(c, runs, lines, threshold)
  {
    hide AllRuns, Corpus.Valid, Sized, IsReport, IsTold, Entered, Ledger.Valid, Ledger.Matches;
    hide Truthful, ShowsMain, ShowsAll, Substantial;
    ReportedEntriesSized(c, o);
    ReportedSubstantial(c, o);
    RunsWithinTexts(c, o);
    var ledger := new Ledger();
    for i := 0 to |runs|
      invariant ledger.Valid() && fresh(ledger) && fresh(ledger.nodes)
      invariant ledger.Matches() == AllEntered(c, runs[..i])
    {
      ledger.Enter(c, runs[i]);
      assert runs[..i + 1][..i] == runs[..i];
    }
    assert runs[..|runs|] == runs;
    lines := ledger.Show(mainOnly, threshold);
    ToldIsTruthful(c, runs, lines, mainOnly, threshold);
  }

  lemma ReportedSubstantial(c: Corpus, o: Options)
    requires c.Valid()
    ensures Substantial(c, AllRuns(c, o, c.newTexts))
  {
    var runs := AllRuns(c, o, c.newTexts);
    AllRunsAdmissible(c, o, c.newTexts);
    hide AllRuns;
    forall r | r in runs ensures r.size > 0 && Length(c, r.text0) > 0 && Length(c, r.text1) > 0 {
      assert Admissible(c, o, r);
    }
  }

  lemma RunsWithinTexts(c: Corpus, o: Options)
    requires c.Valid()
    ensures forall r :: r in AllRuns(c, o, c.newTexts) ==> r.text0 < |c.texts| && r.text1 < |c.texts|
  {
    AllRunsAdmissible(c, o, c.newTexts);
    forall r | r in AllRuns(c, o, c.newTexts) ensures r.text0 < |c.texts| && r.text1 < |c.texts| {
      assert Admissible(c, o, r);
    }
  }

  lemma EnteredWithin(ms: seq<Match>, c: Corpus, r: Run)
    requires r.text0 == r.text1
    ensures Entered(ms, c, r) == ms
  {
  }

  lemma BothWays(ms: seq<Match>, c: Corpus, r: Run)
    requires c.Valid() && r.text0 < |c.texts| && r.text1 < |c.texts| && r.text0 != r.text1
    ensures c.texts[r.text0].start <= c.texts[r.text0].limit && c.texts[r.text1].start <= c.texts[r.text1].limit
    ensures Entered(ms, c, r) ==
      Added(Added(ms, r.text0, r.text1, r.size, c.texts[r.text0].limit - c.texts[r.text0].start),
            r.text1, r.text0, r.size, c.texts[r.text1].limit - c.texts[r.text1].start)
  {
  }

  lemma HigherAsymmetric()
    ensures Asymmetric(Higher)
  {
  }

  lemma StillSized(ms: seq<Match>, now: seq<Match>)
    requires Sized(ms) && multiset(ms) == multiset(now)
    ensures Sized(now)
  {
    forall i | 0 <= i < |now| ensures now[i].size0 > 0 {
      assert now[i] in multiset(now);
      assert now[i] in ms;
    }
  }

  lemma SortedDescends(chain: seq<Link<Match>>)
    requires Ordered(Higher, chain) && Sized(Items(chain))
    ensures Descending(Items(chain))
  {
    forall k | 0 <= k < |chain| ensures chain[k].item.size0 > 0 {
      assert Items(chain)[k].size0 > 0;
    }
    forall i, j | 0 <= i < j < |chain| ensures AtLeast(Items(chain)[i], Items(chain)[j]) {
      OrderedIsDescending(chain, i, j);
    }
  }
}
