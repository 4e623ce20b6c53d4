/**
  The ledger of allocated memory: which blocks are in use, and which leaks remain.
 */
module MemoryLedger {
  import opened Basics

  const HASH_SIZE: nat := 16381

  /** A place in the source, where memory was asked for: the address of a file name, and a line. */
  datatype Location = Location(fname: nat, line: int)

  datatype Record = Record(addr: nat, size: nat, at: Location)

  /** The chain for an address, which is truncated to 32 bits first. */
  function Slot(addr: nat): (i: nat)
    ensures i < HASH_SIZE
  {
    addr % 0x1_0000_0000 % HASH_SIZE
  }

  // ---------- Chains ----------

  /** The blocks at an address, the most recent one first. */
  ghost function Of(chain: seq<Record>, addr: nat): seq<Record> {
    if chain == [] then []
    else (if chain[0].addr == addr then [chain[0]] else []) + Of(chain[1..], addr)
  }

  ghost function Sizes(rs: seq<Record>): nat {
    if rs == [] then 0 else Sizes(rs[..|rs| - 1]) + rs[|rs| - 1].size
  }

  /** All records, chain by chain. */
  ghost function Flat(chains: seq<seq<Record>>): seq<Record> {
    if chains == [] then [] else Flat(chains[..|chains| - 1]) + chains[|chains| - 1]
  }

  lemma {:induction false} SizesConcat(a: seq<Record>, b: seq<Record>)
    ensures Sizes(a + b) == Sizes(a) + Sizes(b)
  {
    if b == [] {
      assert a + b == a;
    } else {
      SizesConcat(a, b[..|b| - 1]);
      assert (a + b)[..|a + b| - 1] == a + b[..|b| - 1];
    }
  }

  /** Changing one chain changes the sum by as much as that chain. */
  lemma {:induction false} SizesChanged(chains: seq<seq<Record>>, i: nat, chain: seq<Record>)
    requires i < |chains|
    ensures Sizes(Flat(chains[i := chain])) + Sizes(chains[i]) == Sizes(Flat(chains)) + Sizes(chain)
  {
    var now, init, last := chains[i := chain], chains[..|chains| - 1], chains[|chains| - 1];
    SizesConcat(Flat(init), last);
    if i == |chains| - 1 {
      assert now[..|now| - 1] == init;
      SizesConcat(Flat(init), chain);
    } else {
      assert now[..|now| - 1] == init[i := chain];
      SizesConcat(Flat(init[i := chain]), last);
      SizesChanged(init, i, chain);
    }
  }

  lemma {:induction false} NothingOf(chain: seq<Record>, addr: nat)
    requires forall r :: r in chain ==> r.addr != addr
    ensures Of(chain, addr) == []
  {
    if chain != [] {
      NothingOf(chain[1..], addr);
    }
  }

  lemma OneMoreSize(rs: seq<Record>, r: Record)
    ensures Sizes(rs + [r]) == Sizes(rs) + r.size
  {
    assert (rs + [r])[..|rs|] == rs;
  }

  lemma SizeRemoved(chain: seq<Record>, k: nat)
    requires k < |chain|
    ensures Sizes(chain) == Sizes(chain[..k] + chain[k + 1..]) + chain[k].size
  {
    hide Sizes;
    var a, r, b := chain[..k], chain[k], chain[k + 1..];
    assert chain == a + [r] + b;
    SizesConcat(a + [r], b);
    OneMoreSize(a, r);
    SizesConcat(a, b);
  }

  /** Removing the first record for an address removes the most recent block there, and nothing elsewhere. */
  lemma {:induction false} OfRemoved(chain: seq<Record>, k: nat, addr: nat)
    requires k < |chain| && forall i :: 0 <= i < k ==> chain[i].addr != chain[k].addr
    ensures Of(chain, addr) ==
            (if addr == chain[k].addr then [chain[k]] else []) + Of(chain[..k] + chain[k + 1..], addr)
  {
    var rest := chain[..k] + chain[k + 1..];
    if k == 0 {
      assert rest == chain[1..];
    } else {
      var tail := chain[1..];
      OfRemoved(tail, k - 1, addr);
      assert rest[1..] == tail[..k - 1] + tail[k..] && rest[0] == chain[0];
    }
  }

  // ---------- What a history of calls comes to ----------

  datatype Call = Alloc(block: Record) | Free(addr: nat)

  /** The blocks at an address that are still in use after some calls. */
  ghost function Stack(calls: seq<Call>, addr: nat): seq<Record> {
    if calls == [] then []
    else
      var s := Stack(calls[..|calls| - 1], addr);
      match calls[|calls| - 1]
      case Alloc(r) => if r.addr == addr && addr != 0 then [r] + s else s
      case Free(a) => if a == addr && s != [] then s[1..] else s
  }

  /** All that has ever been allocated. */
  ghost function Allocated(calls: seq<Call>): nat {
    if calls == [] then 0
    else Allocated(calls[..|calls| - 1]) +
         match calls[|calls| - 1] case Alloc(r) => if r.addr != 0 then r.size else 0 case Free(_) => 0
  }

  /** All that has been freed. */
  ghost function Freed(calls: seq<Call>): nat {
    if calls == [] then 0
    else
      var init := calls[..|calls| - 1];
      Freed(init) +
        match calls[|calls| - 1]
        case Alloc(_) => 0
        case Free(a) => if Stack(init, a) != [] then Stack(init, a)[0].size else 0
  }

  /** The most that was in use at any time. */
  ghost function Peak(calls: seq<Call>): int {
    if calls == [] then 0
    else
      var before, now := Peak(calls[..|calls| - 1]), Allocated(calls) - Freed(calls);
      if now > before then now else before
  }

  // ---------- Leaks ----------

  /** `nBlocks` blocks from one place: all of them of `size`, or of different sizes that add up to `size`. */
  datatype Entry = Entry(at: Location, nBlocks: nat, varSize: bool, size: nat)

  /** The number of bytes that an entry stands for. */
  function Bytes(e: Entry): nat {
    if e.varSize then e.size else e.size * e.nBlocks
  }

  ghost function BytesOfAll(es: seq<Entry>): nat {
    if es == [] then 0 else BytesOfAll(es[..|es| - 1]) + Bytes(es[|es| - 1])
  }

  /** The records from one place. */
  ghost function From(rs: seq<Record>, at: Location): seq<Record> {
    if rs == [] then []
    else From(rs[..|rs| - 1], at) + if rs[|rs| - 1].at == at then [rs[|rs| - 1]] else []
  }

  /** The entry describes these records: how many, how many bytes, and whether they are of one size. */
  ghost predicate Sums(e: Entry, rs: seq<Record>) {
    && rs != [] && e.nBlocks == |rs| && Sizes(rs) == (if e.varSize then e.size else e.size * e.nBlocks)
    && (e.varSize <==> exists i :: 0 <= i < |rs| && rs[i].size != rs[0].size)
    && (!e.varSize ==> e.size == rs[0].size)
  }

  ghost predicate HasEntry(es: seq<Entry>, at: Location) {
    exists i :: 0 <= i < |es| && es[i].at == at
  }

  /** One entry for every place that records are from, which describes them. */
  ghost predicate Compacts(es: seq<Entry>, rs: seq<Record>) {
    && (forall i, j :: 0 <= i < j < |es| ==> es[i].at != es[j].at)
    && (forall i :: 0 <= i < |es| ==> Sums(es[i], From(rs, es[i].at)))
    && (forall at :: From(rs, at) != [] ==> HasEntry(es, at))
  }

  lemma NoLeaks()
    ensures Compacts([], Flat([])) && BytesOfAll([]) == 0 == Sizes(Flat([]))
  {
  }

  lemma OneMoreChain(chains: seq<seq<Record>>, i: nat)
    requires i < |chains|
    ensures Flat(chains[..i + 1]) == Flat(chains[..i]) + chains[i]
  {
    assert chains[..i + 1][..i] == chains[..i];
  }

  /** The entry when one more record is counted in. */
  function Updated(e: Entry, size: nat): Entry {
    var n := e.nBlocks + 1;
    if e.varSize then Entry(e.at, n, true, e.size + size)
    else if e.size != size then Entry(e.at, n, true, e.nBlocks * e.size + size)
    else Entry(e.at, n, false, e.size)
  }

  method PlaceOfEntry(es: seq<Entry>, at: Location) returns (k: nat)
    ensures k <= |es| && (k < |es| ==> es[k].at == at) && forall i :: 0 <= i < k ==> es[i].at != at
  {
    k := 0;
    while k < |es| && es[k].at != at
      invariant k <= |es| && forall i :: 0 <= i < k ==> es[i].at != at
    {
      k := k + 1;
    }
  }

  lemma FromMore(rs: seq<Record>, r: Record, at: Location)
    ensures From(rs + [r], at) == From(rs, at) + if r.at == at then [r] else []
  {
    assert (rs + [r])[..|rs|] == rs;
  }

  /** Counting in one more record keeps an entry right. */
  lemma UpdatedSums(e: Entry, rs: seq<Record>, r: Record)
    requires Sums(e, rs)
    ensures Sums(Updated(e, r.size), rs + [r]) && Bytes(Updated(e, r.size)) == Bytes(e) + r.size
  {
    OneMoreSize(rs, r);
    var now := rs + [r];
    assert now[0] == rs[0] && now[|rs|] == r;
    if e.varSize {
      var i :| 0 <= i < |rs| && rs[i].size != rs[0].size;
      assert now[i] == rs[i];
    }
  }

  lemma FirstSums(r: Record)
    ensures Sums(Entry(r.at, 1, false, r.size), [r])
  {
    assert [r][..0] == [];
  }

  lemma {:induction false} BytesChanged(es: seq<Entry>, k: nat, e: Entry)
    requires k < |es|
    ensures BytesOfAll(es[k := e]) + Bytes(es[k]) == BytesOfAll(es) + Bytes(e)
  {
    var init, now := es[..|es| - 1], es[k := e];
    if k == |es| - 1 {
      assert now[..|now| - 1] == init;
    } else {
      assert now[..|now| - 1] == init[k := e];
      BytesChanged(init, k, e);
    }
  }

  lemma {:induction false} BytesInFront(e: Entry, es: seq<Entry>)
    ensures BytesOfAll([e] + es) == Bytes(e) + BytesOfAll(es)
  {
    var all := [e] + es;
    if es == [] {
      assert all[..|all| - 1] == [];
    } else {
      assert all[..|all| - 1] == [e] + es[..|es| - 1];
      BytesInFront(e, es[..|es| - 1]);
    }
  }

  lemma CompactsUpdated(es: seq<Entry>, k: nat, r: Record, rs: seq<Record>)
    requires Compacts(es, rs) && k < |es| && es[k].at == r.at
    ensures Compacts(es[k := Updated(es[k], r.size)], rs + [r])
  {
    var e := Updated(es[k], r.size);
    UpdatedSums(es[k], From(rs, r.at), r);
    OthersUnchanged(rs, r);
    assert e.at == es[k].at;
    var now := es[k := e];
    forall at ensures HasEntry(now, at) <==> HasEntry(es, at) {
      SameEntries(es, k, e, at);
    }
    assert HasEntry(es, r.at);
    hide Sums, Updated, From, HasEntry;
    forall i, j | 0 <= i < j < |now| ensures now[i].at != now[j].at {
      assert es[i].at != es[j].at;
    }
    forall i | 0 <= i < |now| ensures Sums(now[i], From(rs + [r], now[i].at)) {
      assert i != k ==> Sums(es[i], From(rs, es[i].at)) && es[i].at != r.at;
    }
  }

  lemma SameEntries(es: seq<Entry>, k: nat, e: Entry, at: Location)
    requires k < |es| && es[k].at == e.at
    ensures HasEntry(es[k := e], at) <==> HasEntry(es, at)
  {
    var now := es[k := e];
    assert forall i :: 0 <= i < |es| ==> now[i].at == es[i].at;
    if HasEntry(es, at) {
      var i :| 0 <= i < |es| && es[i].at == at;
      assert now[i].at == at;
    }
    if HasEntry(now, at) {
      var i :| 0 <= i < |now| && now[i].at == at;
      assert es[i].at == at;
    }
  }

  lemma EntryInFront(e: Entry, es: seq<Entry>, at: Location)
    ensures HasEntry([e] + es, at) <==> e.at == at || HasEntry(es, at)
  {
    var now := [e] + es;
    assert now[0] == e;
    if HasEntry(es, at) {
      var i :| 0 <= i < |es| && es[i].at == at;
      assert now[i + 1].at == at;
    }
  }

  lemma OthersUnchanged(rs: seq<Record>, r: Record)
    ensures forall at :: at != r.at ==> From(rs + [r], at) == From(rs, at)
    ensures From(rs + [r], r.at) == From(rs, r.at) + [r]
  {
    forall at ensures From(rs + [r], at) == From(rs, at) + if r.at == at then [r] else [] {
      FromMore(rs, r, at);
    }
  }

  lemma CompactsNew(es: seq<Entry>, r: Record, rs: seq<Record>)
    requires Compacts(es, rs) && forall i :: 0 <= i < |es| ==> es[i].at != r.at
    ensures Compacts([Entry(r.at, 1, false, r.size)] + es, rs + [r])
  {
    var e := Entry(r.at, 1, false, r.size);
    assert !HasEntry(es, r.at) && From(rs, r.at) == [];
    FirstSums(r);
    OthersUnchanged(rs, r);
    hide Sums, From, HasEntry;
    var now := [e] + es;
    forall at ensures HasEntry(now, at) <==> e.at == at || HasEntry(es, at) {
      EntryInFront(e, es, at);
    }
    assert forall i :: 0 <= i < |now| ==> now[i] == if i == 0 then e else es[i - 1];
  }

  /** Counts in one more record. */
  method CompactRecord(es: seq<Entry>, r: Record, ghost rs: seq<Record>) returns (res: seq<Entry>)
    requires Compacts(es, rs)
    ensures Compacts(res, rs + [r]) && BytesOfAll(res) == BytesOfAll(es) + r.size
  {
    var k := PlaceOfEntry(es, r.at);
    if k < |es| {
      CompactsUpdated(es, k, r, rs);
      UpdatedSums(es[k], From(rs, r.at), r);
      hide *;
      BytesChanged(es, k, Updated(es[k], r.size));
      res := es[k := Updated(es[k], r.size)];
    } else {
      CompactsNew(es, r, rs);
      hide Compacts, BytesOfAll;
      BytesInFront(Entry(r.at, 1, false, r.size), es);
      res := [Entry(r.at, 1, false, r.size)] + es;
    }
  }

  method CompactChain(es: seq<Entry>, chain: seq<Record>, ghost rs: seq<Record>) returns (res: seq<Entry>)
    requires Compacts(es, rs) && BytesOfAll(es) == Sizes(rs)
    ensures Compacts(res, rs + chain) && BytesOfAll(res) == Sizes(rs + chain)
  {
    hide Compacts, Sizes, BytesOfAll;
    res := es;
    assert rs + chain[..0] == rs;
    for i := 0 to |chain|
      invariant Compacts(res, rs + chain[..i]) && BytesOfAll(res) == Sizes(rs + chain[..i])
    {
      OneMoreSize(rs + chain[..i], chain[i]);
      res := CompactRecord(res, chain[i], rs + chain[..i]);
      assert rs + chain[..i + 1] == rs + chain[..i] + [chain[i]];
    }
    assert chain[..|chain|] == chain;
  }

  /** Every record is on the chain for its address. */
  ghost predicate InPlace(chains: seq<seq<Record>>) {
    forall i :: 0 <= i < |chains| ==> forall r :: r in chains[i] ==> r.addr != 0 && Slot(r.addr) == i
  }

  lemma StillInPlace(chains: seq<seq<Record>>, i: nat, chain: seq<Record>)
    requires InPlace(chains) && i < |chains|
    requires forall r :: r in chain ==> r in chains[i] || (r.addr != 0 && Slot(r.addr) == i)
    ensures InPlace(chains[i := chain])
  {
  }

  lemma OneInFront(r: Record, chain: seq<Record>)
    ensures Sizes([r] + chain) == Sizes(chain) + r.size
    ensures forall a: nat :: Of([r] + chain, a) == (if a == r.addr then [r] else []) + Of(chain, a)
  {
    SizesConcat([r], chain);
    assert ([r] + chain)[1..] == chain && [r][..0] == [];
  }

  /** What changes when the first record for an address is taken off its chain. */
  lemma Unchained(chains: seq<seq<Record>>, i: nat, k: nat, rest: seq<Record>)
    requires InPlace(chains) && i < |chains| && k < |chains[i]| && rest == chains[i][..k] + chains[i][k + 1..]
    requires forall j :: 0 <= j < k ==> chains[i][j].addr != chains[i][k].addr
    ensures InPlace(chains[i := rest])
    ensures Sizes(Flat(chains)) == Sizes(Flat(chains[i := rest])) + chains[i][k].size
    ensures forall a: nat :: Of(chains[i], a) == (if a == chains[i][k].addr then [chains[i][k]] else []) + Of(rest, a)
  {
    forall a: nat ensures Of(chains[i], a) == (if a == chains[i][k].addr then [chains[i][k]] else []) + Of(rest, a) {
      OfRemoved(chains[i], k, a);
    }
    hide Of, Sizes, Flat, InPlace;
    StillInPlace(chains, i, rest);
    SizeRemoved(chains[i], k);
    SizesChanged(chains, i, rest);
  }

  class Ledger {
    const chains: array<seq<Record>>
    var total: nat
    var balance: nat
    var max: nat

    /** The records are in place; the counters agree with the chains. */
    ghost predicate Valid()
      reads this, chains
    {
      && chains.Length == HASH_SIZE
      && InPlace(chains[..])
      && balance == Sizes(Flat(chains[..]))
      && balance <= max <= total
    }

    /** The blocks in use at an address. */
    ghost function Blocks(addr: nat): seq<Record>
      requires Valid()
      reads this, chains
    {
      Of(chains[Slot(addr)], addr)
    }

    constructor ()
      ensures Valid() && fresh(chains) && total == balance == max == 0
      ensures forall a: nat :: Blocks(a) == []
    {
      chains := new seq<Record>[HASH_SIZE](_ => []);
      total, balance, max := 0, 0, 0;
      new;
      AllEmpty(chains[..]);
    }

    /** Records a block; null is not recorded. */
    method RecordAlloc(addr: nat, size: nat, at: Location)
      requires Valid()
      modifies this, chains
      ensures Valid()
      ensures forall a: nat ::
        Blocks(a) == (if a == addr && a != 0 then [Record(addr, size, at)] else []) + old(Blocks(a))
      ensures total == old(total) + (if addr == 0 then 0 else size)
      ensures balance == old(balance) + (if addr == 0 then 0 else size)
      ensures max == if balance > old(max) then balance else old(max)
    {
      if addr == 0 {
        return;
      }
      var i, r := Slot(addr), Record(addr, size, at);
      ghost var was := chains[..];
      OneInFront(r, was[i]);
      hide Of, Sizes, Flat, InPlace, Slot;
      SizesChanged(was, i, [r] + was[i]);
      StillInPlace(was, i, [r] + was[i]);
      chains[i] := [r] + chains[i];
      assert chains[..] == was[i := [r] + was[i]];
      total := total + size;
      balance := balance + size;
      if balance > max {
        max := balance;
      }
    }

    /** The place of the first record for an address on its chain; behind the chain if there is none. */
    method PlaceOf(addr: nat) returns (k: nat)
      requires Valid()
      ensures var chain := chains[Slot(addr)];
        && k <= |chain| && (k < |chain| ==> chain[k].addr == addr)
        && forall i :: 0 <= i < k ==> chain[i].addr != addr
    {
      var chain := chains[Slot(addr)];
      k := 0;
      while k < |chain| && chain[k].addr != addr
        invariant k <= |chain| && forall i :: 0 <= i < k ==> chain[i].addr != addr
      {
        k := k + 1;
      }
    }

    /** Removes the most recent block at an address; there may be none. */
    method RecordFree(addr: nat) returns (size: Option<nat>)
      requires Valid()
      modifies this, chains
      ensures Valid() && total == old(total) && max == old(max)
      ensures old(Blocks(addr)) == [] ==> size == None && balance == old(balance)
      ensures old(Blocks(addr)) != [] ==>
        size == Some(old(Blocks(addr))[0].size) && balance == old(balance) - old(Blocks(addr))[0].size
      ensures forall a: nat ::
        Blocks(a) == if a == addr && old(Blocks(a)) != [] then old(Blocks(a))[1..] else old(Blocks(a))
    {
      var i := Slot(addr);
      var k := PlaceOf(addr);
      ghost var was := chains[..];
      if k == |chains[i]| {
        NothingOf(chains[i], addr);
        return None;
      }
      var old_, rest := chains[i][k], chains[i][..k] + chains[i][k + 1..];
      hide Of, Sizes, Flat, InPlace, Slot;
      Unchained(was, i, k, rest);
      chains[i] := rest;
      assert chains[..] == was[i := rest];
      balance := balance - old_.size;
      size := Some(old_.size);
    }

    /** The leaks, taken together by the place where they were allocated. */
    method CompactedLeaks() returns (res: seq<Entry>)
      requires Valid()
      ensures Compacts(res, Flat(chains[..])) && BytesOfAll(res) == balance
    {
      hide Compacts, Flat, Sizes, BytesOfAll;
      res := [];
      NoLeaks();
      assert chains[..0] == [];
      for i := 0 to HASH_SIZE
        invariant Compacts(res, Flat(chains[..i])) && BytesOfAll(res) == Sizes(Flat(chains[..i]))
      {
        res := CompactChain(res, chains[i], Flat(chains[..i]));
        OneMoreChain(chains[..], i);
      }
      assert chains[..HASH_SIZE] == chains[..];
    }

    /** The ledger is what the calls come to, whatever they are. */
    ghost predicate Follows(calls: seq<Call>)
      reads this, chains
    {
      && Valid()
      && (forall a: nat :: Blocks(a) == Stack(calls, a))
      && total == Allocated(calls) && balance == Allocated(calls) - Freed(calls) && max == Peak(calls)
    }

    method Perform(call: Call, ghost calls: seq<Call>)
      requires Follows(calls)
      modifies this, chains
      ensures Follows(calls + [call])
    {
      assert (calls + [call])[..|calls|] == calls;
      match call
      case Alloc(r) => RecordAlloc(r.addr, r.size, r.at);
      case Free(a) => var _ := RecordFree(a);
    }
  }

  /** After any sequence of calls the ledger holds the blocks in use, and balances. */
  method Replay(calls: seq<Call>) returns (ledger: Ledger)
    ensures fresh(ledger) && ledger.Follows(calls)
  {
    hide *;
    ledger := new Ledger();
    Beginning(ledger);
    for i := 0 to |calls|
      invariant fresh(ledger) && fresh(ledger.chains) && ledger.Follows(calls[..i])
    {
      assert calls[..i + 1] == calls[..i] + [calls[i]];
      ledger.Perform(calls[i], calls[..i]);
    }
    assert calls[..|calls|] == calls;
  }

  lemma Beginning(ledger: Ledger)
    requires ledger.Valid() && ledger.total == ledger.balance == ledger.max == 0
    requires forall a: nat :: ledger.Blocks(a) == []
    ensures forall calls: seq<Call> :: calls == [] ==> ledger.Follows(calls)
  {
  }

  lemma {:induction false} AllEmpty(chains: seq<seq<Record>>)
    requires forall i :: 0 <= i < |chains| ==> chains[i] == []
    ensures Flat(chains) == []
  {
    if chains != [] {
      AllEmpty(chains[..|chains| - 1]);
    }
  }
}
