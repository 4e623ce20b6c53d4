/**
  Linked lists, and the sorting of them in place: split, sort the halves, merge.
 */
module LinkedLists {

  class Link<T> {
    var next: Link?<T>
    var item: T

    constructor (i: T)
      ensures item == i && next == null
    {
      item, next := i, null;
    }
  }

  /** The element at a position, or null behind the last one. */
  ghost function At<T>(s: seq<Link<T>>, i: nat): Link?<T> {
    if i < |s| then s[i] else null
  }

  ghost function Last<T>(s: seq<Link<T>>): Link?<T> {
    if s == [] then null else s[|s| - 1]
  }

  ghost function Items<T>(s: seq<Link<T>>): (r: seq<T>)
    reads s`item
    ensures |r| == |s| && forall i :: 0 <= i < |s| ==> r[i] == s[i].item
  {
    if s == [] then [] else Items(s[..|s| - 1]) + [s[|s| - 1].item]
  }

  /** These are the different elements of the list that starts at `head`, in order. */
  ghost predicate Chain<T>(head: Link?<T>, s: seq<Link<T>>)
    reads s`next
  {
    && head == At(s, 0)
    && (forall i :: 0 <= i < |s| ==> s[i].next == At(s, i + 1))
    && forall i, j :: 0 <= i < j < |s| ==> s[i] != s[j]
  }

  /** No element should come before its predecessor. */
  ghost predicate Ordered<T>(before: (T, T) -> bool, s: seq<Link<T>>)
    reads s`item
  {
    forall i :: 0 < i < |s| ==> !before(s[i].item, s[i - 1].item)
  }

  ghost predicate Asymmetric<T(!new)>(before: (T, T) -> bool) {
    forall x, y :: before(x, y) ==> !before(y, x)
  }

  /** Takes the first element off a list. */
  method Detach<T>(head: Link<T>, ghost s: seq<Link<T>>) returns (rest: Link?<T>)
    requires Chain(head, s)
    modifies head`next
    ensures s != [] && head == s[0] && head.next == null && head !in s[1..]
    ensures Chain(rest, s[1..])
  {
    ghost var t := s[1..];
    assert forall i: nat :: At(t, i) == At(s, i + 1);
    rest := head.next;
    head.next := null;
  }

  /** Puts an element behind the last one of a list. */
  method Append<T>(head: Link?<T>, last: Link?<T>, l: Link<T>, ghost s: seq<Link<T>>) returns (h: Link<T>)
    requires Chain(head, s) && last == Last(s) && l !in s && l.next == null
    modifies if last == null then {} else {last}`next
    ensures Chain(h, s + [l])
  {
    ghost var t := s + [l];
    assert forall i: nat :: i < |s| ==> At(t, i) == At(s, i);
    if last == null {
      h := l;
    } else {
      last.next := l;
      h := head;
    }
  }

  ghost predicate Apart<T>(a: seq<Link<T>>, b: seq<Link<T>>) {
    forall x :: x in a ==> x !in b
  }

  lemma MovedParts<T>(a: seq<Link<T>>, b: seq<Link<T>>, c: seq<Link<T>>)
    requires a != [] && Apart(a, b) && Apart(a, c) && Apart(b, c)
    requires forall i, j :: 0 <= i < j < |a| ==> a[i] != a[j]
    ensures Apart(a[1..], b + [a[0]]) && Apart(a[1..], c) && Apart(b + [a[0]], c)
    ensures multiset(a[1..]) + multiset(b + [a[0]]) == multiset(a) + multiset(b)
  {
    assert a == [a[0]] + a[1..];
    forall x | x in a[1..] ensures x != a[0] {
    }
  }

  /** Three lists that have no element in common, and between them hold the elements of `s`. */
  ghost predicate Trio<T>(p: Link?<T>, a: seq<Link<T>>, q: Link?<T>, b: seq<Link<T>>, r: Link?<T>, c: seq<Link<T>>,
                          s: seq<Link<T>>)
    reads a`next, b`next, c`next
  {
    && Chain(p, a) && Chain(q, b) && Chain(r, c)
    && Apart(a, b) && Apart(a, c) && Apart(b, c)
    && multiset(a) + multiset(b) + multiset(c) == multiset(s)
  }

  lemma LastAppended<T>(s: seq<Link<T>>, l: Link<T>)
    ensures Last(s + [l]) == l
  {
  }

  lemma TrioSwap<T>(p: Link?<T>, a: seq<Link<T>>, q: Link?<T>, b: seq<Link<T>>, r: Link?<T>, c: seq<Link<T>>,
                    s: seq<Link<T>>)
    requires Trio(p, a, q, b, r, c, s)
    ensures Trio(p, a, r, c, q, b, s)
    ensures p == null <==> a == []
    ensures p != null ==> p == a[0]
  {
  }

  lemma InTrio<T>(x: Link<T>, a: seq<Link<T>>, b: seq<Link<T>>, c: seq<Link<T>>, s: seq<Link<T>>)
    requires multiset(a) + multiset(b) + multiset(c) == multiset(s)
    requires x in a || x in b
    ensures x in s
  {
    assert x in multiset(a) || x in multiset(b);
    assert x in multiset(s);
  }

  /** Moves the first element of the first list to the end of the second. */
  method Move<T>(p: Link<T>, ghost a: seq<Link<T>>, q: Link?<T>, last: Link?<T>, ghost b: seq<Link<T>>,
                 ghost r: Link?<T>, ghost c: seq<Link<T>>, ghost s: seq<Link<T>>)
    returns (p': Link?<T>, q': Link<T>)
    requires Trio(p, a, q, b, r, c, s) && last == Last(b)
    modifies s`next
    ensures a != [] && p == a[0] && Trio(p', a[1..], q', b + [p], r, c, s)
  {
    MovedParts(a, b, c);
    InTrio(p, a, b, c, s);
    if last != null {
      InTrio(last, a, b, c, s);
    }
    p' := Detach(p, a);
    assert Chain(q, b) && Chain(r, c);
    assert last != null ==> last in b && last !in a[1..] && last !in c;
    q' := Append(q, last, p, b);
    assert Chain(p', a[1..]) && Chain(r, c);
  }

  /** Splits a list in two, by taking its elements alternately. */
  method Split<T>(head: Link?<T>, ghost s: seq<Link<T>>)
    returns (q0: Link?<T>, q1: Link?<T>, ghost s0: seq<Link<T>>, ghost s1: seq<Link<T>>)
    requires Chain(head, s)
    modifies s`next
    ensures Trio(null, [], q0, s0, q1, s1, s)
    ensures |s1| <= |s0| <= |s1| + 1
  {
    q0, q1, s0, s1 := null, null, [], [];
    ghost var rest := s;
    var lst := head;
    var last0: Link?<T>, last1: Link?<T> := null, null;
    var toFirst := true;
    assert Trio(lst, rest, q0, s0, q1, s1, s) && last0 == Last(s0) && last1 == Last(s1);
    hide Trio, Last;
    while lst != null
      invariant Trio(lst, rest, q0, s0, q1, s1, s) && last0 == Last(s0) && last1 == Last(s1)
      invariant |s0| == if toFirst then |s1| else |s1| + 1
      decreases |rest|
    {
      var l := lst;
      LastAppended(s0, l);
      LastAppended(s1, l);
      if toFirst {
        lst, q0 := Move(l, rest, q0, last0, s0, q1, s1, s);
        rest, s0, last0 := rest[1..], s0 + [l], l;
      } else {
        TrioSwap(lst, rest, q0, s0, q1, s1, s);
        lst, q1 := Move(l, rest, q1, last1, s1, q0, s0, s);
        rest, s1, last1 := rest[1..], s1 + [l], l;
        TrioSwap(lst, rest, q1, s1, q0, s0, s);
      }
      toFirst := !toFirst;
    }
    TrioSwap(lst, rest, q0, s0, q1, s1, s);
  }

  /** Both lists are ordered, as is the third, which has no element that should come behind theirs. */
  ghost predicate Merging<T>(before: (T, T) -> bool, a: seq<Link<T>>, b: seq<Link<T>>, out: seq<Link<T>>)
    reads a`item, b`item, out`item
  {
    && Ordered(before, a) && Ordered(before, b) && Ordered(before, out)
    && (out != [] && a != [] ==> !before(a[0].item, out[|out| - 1].item))
    && (out != [] && b != [] ==> !before(b[0].item, out[|out| - 1].item))
  }

  lemma MergeStep<T(!new)>(before: (T, T) -> bool, a: seq<Link<T>>, b: seq<Link<T>>, out: seq<Link<T>>)
    requires Merging(before, a, b, out) && Asymmetric(before)
    requires a != [] && (b != [] ==> before(a[0].item, b[0].item) || !before(b[0].item, a[0].item))
    ensures Merging(before, a[1..], b, out + [a[0]])
    ensures Merging(before, b, a[1..], out + [a[0]])
  {
  }

  lemma MergeStart<T>(before: (T, T) -> bool, p: Link?<T>, a: seq<Link<T>>, q: Link?<T>, b: seq<Link<T>>,
                      s: seq<Link<T>>)
    requires Trio(null, [], p, a, q, b, s) && Ordered(before, a) && Ordered(before, b)
    ensures Trio(p, a, null, [], q, b, s) && Merging(before, a, b, []) && Last<T>([]) == null
  {
    assert multiset(a) + multiset([]) + multiset(b) == multiset(s);
  }

  /** The two lists may change places. */
  lemma Exchange<T>(before: (T, T) -> bool, p: Link?<T>, a: seq<Link<T>>, h: Link?<T>, out: seq<Link<T>>,
                    q: Link?<T>, b: seq<Link<T>>, s: seq<Link<T>>)
    requires Trio(p, a, h, out, q, b, s) && Merging(before, a, b, out)
    ensures Trio(q, b, h, out, p, a, s) && Merging(before, b, a, out)
    ensures p == At(a, 0) && q == At(b, 0)
  {
  }

  lemma MergeEnd<T>(before: (T, T) -> bool, p: Link?<T>, a: seq<Link<T>>, h: Link?<T>, out: seq<Link<T>>,
                    q: Link?<T>, b: seq<Link<T>>, s: seq<Link<T>>)
    requires Trio(p, a, h, out, q, b, s) && Merging(before, a, b, out) && p == null == q
    ensures Chain(h, out) && Ordered(before, out) && multiset(out) == multiset(s)
  {
    assert a == [] && b == [];
  }

  /** Merges two ordered lists. */
  method Merge<T(!new)>(p0: Link?<T>, p1: Link?<T>, before: (T, T) -> bool,
                        ghost t0: seq<Link<T>>, ghost t1: seq<Link<T>>, ghost s: seq<Link<T>>)
    returns (head: Link?<T>, ghost out: seq<Link<T>>)
    requires Trio(null, [], p0, t0, p1, t1, s)
    requires Asymmetric(before) && Ordered(before, t0) && Ordered(before, t1)
    modifies s`next
    ensures Chain(head, out) && Ordered(before, out) && multiset(out) == multiset(s)
  {
    hide Trio, Merging, Asymmetric, Last;
    head, out := null, [];
    var q0, q1, last := p0, p1, null;
    ghost var s0, s1 := t0, t1;
    MergeStart(before, q0, s0, q1, s1, s);
    while q0 != null || q1 != null
      invariant Trio(q0, s0, head, out, q1, s1, s) && last == Last(out)
      invariant Merging(before, s0, s1, out)
      decreases |s0| + |s1|
    {
      Exchange(before, q0, s0, head, out, q1, s1, s);
      var fromFirst := if q0 == null then false else if q1 == null then true else before(q0.item, q1.item);
      if fromFirst {
        var l := q0;
        LastAppended(out, l);
        MergeStep(before, s0, s1, out);
        q0, head := Move(l, s0, head, last, out, q1, s1, s);
        s0, out, last := s0[1..], out + [l], l;
      } else {
        var l := q1;
        LastAppended(out, l);
        MergeStep(before, s1, s0, out);
        q1, head := Move(l, s1, head, last, out, q0, s0, s);
        s1, out, last := s1[1..], out + [l], l;
        Exchange(before, q1, s1, head, out, q0, s0, s);
      }
    }
    MergeEnd(before, q0, s0, head, out, q1, s1, s);
  }

  lemma SubTrio<T>(a: seq<Link<T>>, b: seq<Link<T>>, c: seq<Link<T>>, s: seq<Link<T>>)
    requires multiset(a) + multiset(b) + multiset(c) == multiset(s)
    ensures |a| + |b| + |c| == |s|
    ensures (forall x :: x in a ==> x in s) && (forall x :: x in b ==> x in s) && (forall x :: x in c ==> x in s)
  {
    assert |multiset(a)| + |multiset(b)| + |multiset(c)| == |multiset(s)|;
    forall x | x in a || x in b || x in c ensures x in s {
      assert x in multiset(a) || x in multiset(b) || x in multiset(c);
      assert x in multiset(s);
    }
  }

  lemma SamePlaces<T>(a: seq<Link<T>>, b: seq<Link<T>>)
    requires multiset(a) == multiset(b)
    ensures forall i :: 0 <= i < |a| ==> a[i] in b
    ensures forall i :: 0 <= i < |b| ==> b[i] in a
    ensures forall x :: x in a ==> x in b
    ensures forall x :: x in b ==> x in a
  {
    forall x | x in a ensures x in b {
      assert x in multiset(a);
    }
    forall x | x in b ensures x in a {
      assert x in multiset(b);
    }
  }

  /**
    Sorts a list by relinking its elements: the result has the same elements, and none that should
    come before its predecessor.
   */
  method Sort<T(!new)>(head: Link?<T>, before: (T, T) -> bool, ghost s: seq<Link<T>>)
    returns (h: Link?<T>, ghost out: seq<Link<T>>)
    requires Chain(head, s) && Asymmetric(before)
    modifies s`next
    ensures Chain(h, out) && Ordered(before, out) && multiset(out) == multiset(s)
    decreases |s|
  {
    if head == null {
      return head, s;
    }
    if head.next == null {
      assert |s| == 1;
      return head, s;
    }
    assert |s| >= 2;
    var q0, q1;
    ghost var s0, s1;
    q0, q1, s0, s1 := Split(head, s);
    SubTrio([], s0, s1, s);
    h, out := SortHalves(q0, q1, before, s0, s1, s);
  }

  method SortHalves<T(!new)>(p0: Link?<T>, p1: Link?<T>, before: (T, T) -> bool,
                             ghost s0: seq<Link<T>>, ghost s1: seq<Link<T>>, ghost s: seq<Link<T>>)
    returns (h: Link?<T>, ghost out: seq<Link<T>>)
    requires Trio(null, [], p0, s0, p1, s1, s) && Asymmetric(before) && |s0| < |s| && |s1| < |s|
    modifies s`next
    ensures Chain(h, out) && Ordered(before, out) && multiset(out) == multiset(s)
    decreases |s|, 0
  {
    hide Asymmetric, Ordered, Trio, Chain;
    Halves(p0, s0, p1, s1, s);
    var q0, q1;
    ghost var r0, r1;
    q0, r0 := Sort(p0, before, s0);
    assert Chain(p1, s1);
    q1, r1 := Sort(p1, before, s1);
    SamePlaces(r0, s0);
    assert Chain(q0, r0);
    SortedHalves(q0, s0, r0, q1, s1, r1, s);
    h, out := Merge(q0, q1, before, r0, r1, s);
  }

  lemma Halves<T>(p: Link?<T>, a: seq<Link<T>>, q: Link?<T>, b: seq<Link<T>>, s: seq<Link<T>>)
    requires Trio(null, [], p, a, q, b, s)
    ensures Chain(p, a) && Chain(q, b) && Apart(a, b) && multiset(a) + multiset(b) == multiset(s)
    ensures (forall i :: 0 <= i < |a| ==> a[i] in s && a[i] !in b)
    ensures (forall i :: 0 <= i < |b| ==> b[i] in s && b[i] !in a)
  {
    SubTrio([], a, b, s);
    var none: seq<Link<T>> := [];
    assert multiset(none) + multiset(a) + multiset(b) == multiset(a) + multiset(b);
  }

  lemma SortedHalves<T>(p: Link?<T>, a: seq<Link<T>>, a': seq<Link<T>>, q: Link?<T>, b: seq<Link<T>>, b': seq<Link<T>>,
                        s: seq<Link<T>>)
    requires Apart(a, b) && multiset(a) + multiset(b) == multiset(s)
    requires multiset(a') == multiset(a) && multiset(b') == multiset(b) && Chain(p, a') && Chain(q, b')
    ensures Trio(null, [], p, a', q, b', s)
  {
    SamePlaces(a', a);
    SamePlaces(b', b);
    var none: seq<Link<T>> := [];
    assert multiset(none) + multiset(a) + multiset(b) == multiset(a) + multiset(b);
  }

  /** Takes an element out of the middle of a list; `prev` is the one before it, if there is one. */
  method Unlink<T>(head: Link?<T>, prev: Link?<T>, l: Link<T>, ghost a: seq<Link<T>>, ghost b: seq<Link<T>>)
    returns (h: Link?<T>, next: Link?<T>)
    requires Chain(head, a + [l] + b) && prev == Last(a)
    modifies if prev == null then {} else {prev}`next
    ensures Chain(h, a + b) && next == At(b, 0)
  {
    ghost var s, t := a + [l] + b, a + b;
    Unlinked(a, l, b);
    assert s[|a|] == l;
    next := l.next;
    if prev == null {
      h := next;
    } else {
      h := head;
      assert prev == s[|a| - 1];
      prev.next := next;
    }
    forall i | 0 <= i < |t| ensures t[i].next == At(t, i + 1) {
      assert t[i] == if i < |a| then s[i] else s[i + 1];
    }
  }

  lemma EmptyList<T>(head: Link?<T>, s: seq<Link<T>>)
    requires Chain(head, s)
    ensures (head == null <==> s == []) && (head == null <==> Items(s) == [])
  {
  }

  ghost predicate Among<T>(s: seq<Link<T>>, nodes: set<Link<T>>) {
    forall i :: 0 <= i < |s| ==> s[i] in nodes
  }

  lemma FirstOfList<T>(head: Link<T>, s: seq<Link<T>>, nodes: set<Link<T>>)
    requires Chain(head, s) && Among(s, nodes)
    ensures Among(s[..0] + s[1..], nodes)
    ensures s != [] && head == s[0] && Items(s)[0] == head.item && Items(s[1..]) == Items(s)[1..]
    ensures s == s[..0] + [head] + s[1..] && Last(s[..0]) == null && Items(s[..0]) == []
  {
  }

  /** Where a list goes on between two parts. */
  lemma MiddleOfList<T>(head: Link?<T>, a: seq<Link<T>>, b: seq<Link<T>>, nodes: set<Link<T>>)
    requires Chain(head, a + b) && At(b, 0) != null && Among(a + b, nodes)
    ensures b != [] && b[0] == At(b, 0) && b[0].next == At(b[1..], 0)
    ensures a + b == a + [b[0]] + b[1..] == (a + [b[0]]) + b[1..]
    ensures Among(a + b[1..], nodes) && (Last(a) != null ==> Last(a) in nodes) && Last(a + [b[0]]) == b[0]
    ensures Items(b)[0] == b[0].item && Items(b[1..]) == Items(b)[1..] && Items(a + [b[0]]) == Items(a) + [b[0].item]
  {
    hide Items;
    var s := a + b;
    assert s[|a|] == b[0] && At(s, |a| + 1) == At(b[1..], 0);
    LessAmong(a, b, nodes);
    ItemsConcat(a, [b[0]]);
    ItemsConcat([b[0]], b[1..]);
    assert b == [b[0]] + b[1..];
  }

  lemma MoreAmong<T>(s: seq<Link<T>>, l: Link<T>, nodes: set<Link<T>>)
    requires Among(s, nodes) && l !in nodes
    ensures l !in s && Among(s + [l], nodes + {l}) && (Last(s) != null ==> Last(s) in nodes)
  {
  }

  lemma LessAmong<T>(a: seq<Link<T>>, b: seq<Link<T>>, nodes: set<Link<T>>)
    requires b != [] && Among(a + b, nodes)
    ensures Among(a + b[1..], nodes) && (Last(a) != null ==> Last(a) in nodes)
  {
    var s := a + b;
    assert forall i :: 0 <= i < |a| ==> s[i] == a[i];
    assert forall i :: 0 <= i < |b| ==> s[|a| + i] == b[i];
  }

  lemma EndOfList<T>(a: seq<Link<T>>, b: seq<Link<T>>)
    requires At(b, 0) == null
    ensures b == [] && a + b == a && Items(b) == []
  {
  }

  lemma Unlinked<T>(a: seq<Link<T>>, l: Link<T>, b: seq<Link<T>>)
    ensures var s, t := a + [l] + b, a + b;
      && (forall i :: 0 <= i < |a| ==> At(t, i) == At(s, i))
      && (forall i :: |a| <= i ==> At(t, i) == At(s, i + 1))
      && At(s, |a| + 1) == At(b, 0)
  {
  }

  lemma CutAround<T>(s: seq<T>, j: nat)
    requires j < |s|
    ensures s == s[..j] + ([s[j]] + s[j + 1..])
  {
  }

  lemma TakenAt<T>(s: seq<T>, j: nat)
    requires j < |s|
    ensures multiset(s) == multiset(s[..j] + s[j + 1..]) + multiset{s[j]}
  {
    CutAround(s, j);
    OneTaken(s[..j], s[j], s[j + 1..]);
  }

  lemma Cancel<T>(a: multiset<T>, b: multiset<T>, x: T)
    requires a + multiset{x} == b + multiset{x}
    ensures a == b
  {
    assert a == (a + multiset{x}) - multiset{x};
    assert b == (b + multiset{x}) - multiset{x};
  }

  /** Taking the same element out of both leaves the same elements. */
  lemma OneLess<T>(a: seq<T>, b: seq<T>, i: nat, j: nat)
    requires i < |a| && j < |b| && a[i] == b[j] && multiset(a) == multiset(b)
    ensures multiset(a[..i] + a[i + 1..]) == multiset(b[..j] + b[j + 1..])
  {
    TakenAt(a, i);
    TakenAt(b, j);
    Cancel(multiset(a[..i] + a[i + 1..]), multiset(b[..j] + b[j + 1..]), a[i]);
  }

  /** The same elements in another order have the same items. */
  lemma {:induction false} SameItems<T>(a: seq<Link<T>>, b: seq<Link<T>>)
    requires multiset(a) == multiset(b)
    ensures multiset(Items(a)) == multiset(Items(b))
    decreases |a|
  {
    hide Items;
    if a == [] {
      assert |multiset(b)| == 0;
      assert b == a;
    } else {
      SamePlaces(a, b);
      var j: nat :| j < |b| && b[j] == a[0];
      OneLess(a, b, 0, j);
      SameItems(a[..0] + a[0 + 1..], b[..j] + b[j + 1..]);
      ItemsWithout(a, 0);
      ItemsWithout(b, j);
    }
  }

  lemma ItemsConcat<T>(a: seq<Link<T>>, b: seq<Link<T>>)
    ensures Items(a + b) == Items(a) + Items(b)
  {
    hide Items;
    forall i | 0 <= i < |a + b| ensures Items(a + b)[i] == (Items(a) + Items(b))[i] {
      assert (a + b)[i] == if i < |a| then a[i] else b[i - |a|];
    }
  }

  lemma OneMoreItem<T>(s: seq<Link<T>>, l: Link<T>)
    ensures Items(s + [l]) == Items(s) + [l.item]
  {
    assert (s + [l])[..|s|] == s;
  }

  lemma ItemsAround<T>(u: seq<Link<T>>, x: Link<T>, v: seq<Link<T>>)
    ensures Items(u + ([x] + v)) == Items(u) + ([x.item] + Items(v))
  {
    hide Items;
    ItemsConcat(u, [x] + v);
    ItemsConcat([x], v);
    assert Items([x]) == [x.item];
  }

  lemma ItemsWithout<T>(b: seq<Link<T>>, j: nat)
    requires j < |b|
    ensures multiset(Items(b)) == multiset(Items(b[..j] + b[j + 1..])) + multiset{b[j].item}
  {
    var u, x, v := b[..j], b[j], b[j + 1..];
    hide *;
    CutAround(b, j);
    ItemsAround(u, x, v);
    ItemsConcat(u, v);
    var iu, iv := Items(u), Items(v);
    assert Items(b) == iu + ([x.item] + iv) && Items(u + v) == iu + iv;
    OneTaken(iu, x.item, iv);
  }

  lemma OneTaken<T>(u: seq<T>, x: T, v: seq<T>)
    ensures multiset(u + ([x] + v)) == multiset(u + v) + multiset{x}
  {
  }
}
