/**
  The collection of runs: a self-adjusting binary tree, through whose nodes a linked list is threaded
  in sorted order.
 */
module RunTree {
  import opened Basics

  const TWO60: nat := 0x1000_0000_0000_0000

  /** A run as the collection sees it: a reference, and the size that it finds there. */
  datatype Item = Item(size: nat, id: nat)

  /** Larger runs come first. */
  predicate Before(v: Item, w: Item) {
    v.size > w.size
  }

  // ---------- Insertion into a sorted sequence ----------

  ghost predicate Sorted(s: seq<Item>) {
    forall i, j :: 0 <= i < j < |s| ==> !Before(s[j], s[i])
  }

  /** `v` inserted in front of the first run that it must precede. */
  ghost function Inserted(s: seq<Item>, v: Item): seq<Item> {
    if s == [] || Before(v, s[0]) then [v] + s else [s[0]] + Inserted(s[1..], v)
  }

  lemma {:induction false} InsertedAt(a: seq<Item>, b: seq<Item>, v: Item)
    requires forall i :: 0 <= i < |a| ==> !Before(v, a[i])
    requires b != [] ==> Before(v, b[0])
    ensures Inserted(a + b, v) == a + [v] + b
  {
    if a == [] {
      assert a + b == b;
    } else {
      InsertedAt(a[1..], b, v);
      assert (a + b)[1..] == a[1..] + b;
    }
  }

  /** Insertion keeps the order. */
  lemma {:induction false} InsertedSorted(s: seq<Item>, v: Item)
    requires Sorted(s)
    ensures Sorted(Inserted(s, v))
  {
    if s != [] && !Before(v, s[0]) {
      assert forall i :: 0 <= i < |s[1..]| ==> s[1..][i] == s[i + 1];
      InsertedSorted(s[1..], v);
      InsertedMembers(s[1..], v);
      var r := Inserted(s[1..], v);
      forall j | 0 <= j < |r| ensures !Before(r[j], s[0]) {
        assert r[j] in multiset(r);
      }
    }
  }

  /** Insertion adds one run, and loses none. */
  lemma {:induction false} InsertedMembers(s: seq<Item>, v: Item)
    ensures multiset(Inserted(s, v)) == multiset(s) + multiset{v}
  {
    if s != [] && !Before(v, s[0]) {
      InsertedMembers(s[1..], v);
      assert s == [s[0]] + s[1..];
    }
  }

  /** In plain sizes: `t` is `s` with `v` behind all that are at least as large, and before the smaller ones. */
  ghost predicate IsInserted(s: seq<Item>, v: Item, t: seq<Item>) {
    exists k ::
      && 0 <= k <= |s| && t == s[..k] + [v] + s[k..]
      && (forall i :: 0 <= i < k ==> s[i].size >= v.size)
      && (forall i :: k <= i < |s| ==> s[i].size < v.size)
  }

  lemma {:induction false} InsertedIs(s: seq<Item>, v: Item)
    requires Sorted(s)
    ensures IsInserted(s, v, Inserted(s, v))
  {
    var k := 0;
    while k < |s| && !Before(v, s[k])
      invariant 0 <= k <= |s| && forall i :: 0 <= i < k ==> !Before(v, s[i])
    {
      k := k + 1;
    }
    forall i | k <= i < |s| ensures s[i].size < v.size {
      assert i > k ==> !Before(s[i], s[k]);
    }
    InsertedAt(s[..k], s[k..], v);
    assert s[..k] + s[k..] == s;
  }

  // ---------- Inserting one run after the other ----------

  ghost function InsertedAll(runs: seq<Item>): seq<Item> {
    if runs == [] then [] else Inserted(InsertedAll(runs[..|runs| - 1]), runs[|runs| - 1])
  }

  /** The runs of one size, in their order. */
  ghost function OfSize(s: seq<Item>, size: nat): seq<Item> {
    if s == [] then [] else (if s[0].size == size then [s[0]] else []) + OfSize(s[1..], size)
  }

  lemma {:induction false} OfSizeAppend(s: seq<Item>, v: Item, size: nat)
    ensures OfSize(s + [v], size) == OfSize(s, size) + if v.size == size then [v] else []
  {
    if s == [] {
      assert s + [v] == [v] + [];
    } else {
      OfSizeAppend(s[1..], v, size);
      assert (s + [v])[1..] == s[1..] + [v];
    }
  }

  lemma {:induction false} NoneOfSize(s: seq<Item>, size: nat)
    requires forall i :: 0 <= i < |s| ==> s[i].size != size
    ensures OfSize(s, size) == []
  {
    if s != [] {
      NoneOfSize(s[1..], size);
    }
  }

  /** A new run comes behind all runs of its own size. */
  lemma {:induction false} InsertedOfSize(s: seq<Item>, v: Item, size: nat)
    requires Sorted(s)
    ensures OfSize(Inserted(s, v), size) == OfSize(s, size) + if v.size == size then [v] else []
  {
    if s == [] || Before(v, s[0]) {
      if v.size == size {
        NoneOfSize(s, size);
      }
      assert ([v] + s)[1..] == s;
    } else {
      InsertedOfSize(s[1..], v, size);
    }
  }

  ghost predicate LargestFirst(s: seq<Item>) {
    forall i, j :: 0 <= i < j < |s| ==> s[i].size >= s[j].size
  }

  /** Shown first is the larger one, and of two of one size the one that was found first. */
  ghost predicate Ahead(v: Item, w: Item) {
    v.size > w.size || (v.size == w.size && v.id < w.id)
  }

  ghost predicate Ranked(s: seq<Item>) {
    forall i, j :: 0 <= i < j < |s| ==> Ahead(s[i], s[j])
  }

  lemma {:induction false} InsertedRanked(s: seq<Item>, v: Item)
    requires Ranked(s) && forall x :: x in s ==> x.id < v.id
    ensures Ranked(Inserted(s, v))
  {
    if s == [] {
    } else if Before(v, s[0]) {
      assert forall i :: 0 <= i < |s| ==> Ahead(v, s[i]) by {
        assert forall i :: 0 < i < |s| ==> Ahead(s[0], s[i]);
      }
      RankedInFront(v, s);
    } else {
      var rest := s[1..];
      InsertedRanked(rest, v);
      InsertedMembers(rest, v);
      var r := Inserted(rest, v);
      forall i | 0 <= i < |r| ensures Ahead(s[0], r[i]) {
        assert r[i] in multiset(r);
        if r[i] in rest {
          var k :| 0 <= k < |rest| && rest[k] == r[i];
          assert Ahead(s[0], s[k + 1]);
        }
      }
      RankedInFront(s[0], r);
    }
  }

  lemma RankedInFront(v: Item, s: seq<Item>)
    requires Ranked(s) && forall i :: 0 <= i < |s| ==> Ahead(v, s[i])
    ensures Ranked([v] + s)
  {
    hide Ahead;
  }

  /** Inserting a sequence of runs is a stable sort of it. */
  lemma {:induction false} InsertedAllIsStableSort(runs: seq<Item>)
    ensures Sorted(InsertedAll(runs)) && LargestFirst(InsertedAll(runs))
    ensures multiset(InsertedAll(runs)) == multiset(runs)
    ensures forall size: nat :: OfSize(InsertedAll(runs), size) == OfSize(runs, size)
  {
    if runs != [] {
      var init, v := runs[..|runs| - 1], runs[|runs| - 1];
      InsertedAllIsStableSort(init);
      InsertedSorted(InsertedAll(init), v);
      InsertedMembers(InsertedAll(init), v);
      assert runs == init + [v];
      forall size: nat ensures OfSize(InsertedAll(runs), size) == OfSize(runs, size) {
        InsertedOfSize(InsertedAll(init), v, size);
        OfSizeAppend(init, v, size);
      }
    }
  }

  // ---------- Nodes and shapes ----------

  class Node {
    const value: Item
    var left: Node?
    var right: Node?
    var next: Node?

    constructor (v: Item)
      ensures value == v && left == null && right == null && next == null
    {
      value, left, right, next := v, null, null, null;
    }
  }

  /** The place that holds a link to a subtree. */
  datatype Hook = AtRoot | LeftOf(n: Node) | RightOf(n: Node)

  /** The shape of a tree, as a value. */
  datatype Tree = Leaf | Fork(l: Tree, n: Node, r: Tree)

  /** The way from the root to a subtree; the innermost step comes first. */
  datatype Path = Root | InLeft(n: Node, r: Tree, up: Path) | InRight(l: Tree, n: Node, up: Path)

  ghost function Top(t: Tree): Node? {
    if t.Leaf? then null else t.n
  }

  ghost function Nodes(t: Tree): set<Node> {
    match t
    case Leaf => {}
    case Fork(l, n, r) => Nodes(l) + {n} + Nodes(r)
  }

  ghost function PathNodes(p: Path): set<Node> {
    match p
    case Root => {}
    case InLeft(n, r, up) => {n} + Nodes(r) + PathNodes(up)
    case InRight(l, n, up) => Nodes(l) + {n} + PathNodes(up)
  }

  /** The in-order walk. */
  ghost function Walk(t: Tree): (s: seq<Node>)
    ensures (forall x :: x in s ==> x in Nodes(t)) && (forall x :: x in Nodes(t) ==> x in s)
  {
    match t
    case Leaf => []
    case Fork(l, n, r) => Walk(l) + [n] + Walk(r)
  }

  /** The part of the in-order walk before the subtree that a path leads to. */
  ghost function WalkBefore(p: Path): seq<Node> {
    match p
    case Root => []
    case InLeft(_, _, up) => WalkBefore(up)
    case InRight(l, n, up) => WalkBefore(up) + Walk(l) + [n]
  }

  ghost function WalkAfter(p: Path): seq<Node> {
    match p
    case Root => []
    case InLeft(n, r, up) => [n] + Walk(r) + WalkAfter(up)
    case InRight(_, _, up) => WalkAfter(up)
  }

  ghost function Plug(p: Path, t: Tree): Tree {
    match p
    case Root => t
    case InLeft(n, r, up) => Plug(up, Fork(t, n, r))
    case InRight(l, n, up) => Plug(up, Fork(l, n, t))
  }

  ghost function HookAt(p: Path): Hook {
    match p
    case Root => AtRoot
    case InLeft(n, _, _) => LeftOf(n)
    case InRight(_, n, _) => RightOf(n)
  }

  lemma Reassociate(a: seq<Node>, b: seq<Node>, n: seq<Node>, c: seq<Node>, d: seq<Node>)
    ensures a + (b + n + c) + d == a + b + (n + c + d) == (a + b + n) + c + d
  {
  }

  lemma {:induction false} WalkPlugged(p: Path, t: Tree)
    ensures Walk(Plug(p, t)) == WalkBefore(p) + Walk(t) + WalkAfter(p)
  {
    match p
    case Root =>
    case InLeft(n, r, up) =>
      WalkPlugged(up, Fork(t, n, r));
      Reassociate(WalkBefore(up), Walk(t), [n], Walk(r), WalkAfter(up));
    case InRight(l, n, up) =>
      WalkPlugged(up, Fork(l, n, t));
      Reassociate(WalkBefore(up), Walk(l), [n], Walk(t), WalkAfter(up));
  }

  /** The links of the nodes agree with the shape. */
  ghost predicate Linked(t: Tree)
    reads Nodes(t)`left, Nodes(t)`right
    decreases t
  {
    t.Fork? ==> t.n.left == Top(t.l) && t.n.right == Top(t.r) && Linked(t.l) && Linked(t.r)
  }

  /** The links on the path agree with it, when it leads from `root` to `hole`. */
  ghost predicate Leads(p: Path, root: Node?, hole: Node?)
    reads PathNodes(p)`left, PathNodes(p)`right
    decreases p
  {
    match p
    case Root => root == hole
    case InLeft(n, r, up) => n.left == hole && n.right == Top(r) && Linked(r) && Leads(up, root, n)
    case InRight(l, n, up) => n.right == hole && n.left == Top(l) && Linked(l) && Leads(up, root, n)
  }

  /** The nodes are linked into a list in this order. */
  ghost predicate Threaded(list: Node?, s: seq<Node>)
    reads s`next
  {
    && list == At(s, 0)
    && forall i :: 0 <= i < |s| ==> s[i].next == At(s, i + 1)
  }

  /** The node at a position, or null behind the last one. */
  ghost function At(s: seq<Node>, i: nat): Node? {
    if i < |s| then s[i] else null
  }

  lemma AtInserted(a: seq<Node>, n: Node, b: seq<Node>)
    ensures var s, s' := a + b, a + [n] + b;
      && (forall i :: 0 <= i < |a| ==> At(s', i) == At(s, i) == a[i])
      && At(s', |a|) == n
      && (forall i :: |a| < i ==> At(s', i) == At(s, i - 1))
  {
  }

  ghost predicate Distinct(s: seq<Node>) {
    forall i, j :: 0 <= i < j < |s| ==> s[i] != s[j]
  }

  ghost function Values(s: seq<Node>): (r: seq<Item>)
    ensures |r| == |s| && forall i :: 0 <= i < |s| ==> r[i] == s[i].value
  {
    seq(|s|, i requires 0 <= i < |s| => s[i].value)
  }

  lemma {:induction false} PluggedLinked(p: Path, t: Tree, root: Node?)
    requires Linked(t) && Leads(p, root, Top(t))
    ensures Linked(Plug(p, t)) && Top(Plug(p, t)) == root
  {
    match p
    case Root =>
    case InLeft(n, r, up) => PluggedLinked(up, Fork(t, n, r), root);
    case InRight(l, n, up) => PluggedLinked(up, Fork(l, n, t), root);
  }

  // ---------- No node occurs twice ----------

  ghost predicate Proper(t: Tree) {
    t.Fork? ==>
      && t.n !in Nodes(t.l) && t.n !in Nodes(t.r) && Nodes(t.l) !! Nodes(t.r)
      && Proper(t.l) && Proper(t.r)
  }

  ghost predicate ProperPath(p: Path) {
    match p
    case Root => true
    case InLeft(n, r, up) =>
      n !in Nodes(r) && n !in PathNodes(up) && Nodes(r) !! PathNodes(up) && Proper(r) && ProperPath(up)
    case InRight(l, n, up) =>
      n !in Nodes(l) && n !in PathNodes(up) && Nodes(l) !! PathNodes(up) && Proper(l) && ProperPath(up)
  }

  lemma {:induction false} PluggedProper(p: Path, t: Tree)
    requires Proper(t) && ProperPath(p) && Nodes(t) !! PathNodes(p)
    ensures Proper(Plug(p, t)) && Nodes(Plug(p, t)) == Nodes(t) + PathNodes(p)
  {
    match p
    case Root =>
    case InLeft(n, r, up) => PluggedProper(up, Fork(t, n, r));
    case InRight(l, n, up) => PluggedProper(up, Fork(l, n, t));
  }

  lemma {:induction false} ProperDistinct(t: Tree)
    requires Proper(t)
    ensures Distinct(Walk(t))
  {
    if t.Fork? {
      ProperDistinct(t.l);
      ProperDistinct(t.r);
      DistinctParts(Walk(t.l), t.n, Walk(t.r));
    }
  }

  lemma DistinctParts(a: seq<Node>, n: Node, b: seq<Node>)
    requires Distinct(a) && Distinct(b) && n !in a && n !in b && forall x :: x in a ==> x !in b
    ensures Distinct(a + [n] + b)
  {
    var s := a + [n] + b;
    forall i, j | 0 <= i < j < |s| ensures s[i] != s[j] {
      assert i < |a| ==> s[i] == a[i] && a[i] in a;
      assert j > |a| ==> s[j] == b[j - |a| - 1] && b[j - |a| - 1] in b;
    }
  }

  ghost function RotatedRight(t: Tree): Tree
    requires t.Fork? && t.l.Fork?
  {
    Fork(t.l.l, t.l.n, Fork(t.l.r, t.n, t.r))
  }

  ghost function RotatedLeft(t: Tree): Tree
    requires t.Fork? && t.r.Fork?
  {
    Fork(Fork(t.l, t.n, t.r.l), t.r.n, t.r.r)
  }

  /** A rotation changes neither the nodes nor their order. */
  lemma RotationKeepsWalk(t: Tree)
    requires t.Fork?
    ensures t.l.Fork? ==> Walk(RotatedRight(t)) == Walk(t)
    ensures t.r.Fork? ==> Walk(RotatedLeft(t)) == Walk(t)
  {
    if t.l.Fork? {
      WalkOfFour(t.l.l, t.l.n, t.l.r, t.n, t.r);
    }
    if t.r.Fork? {
      WalkOfFour(t.l, t.n, t.r.l, t.r.n, t.r.r);
    }
  }

  lemma WalkOfFour(a: Tree, m: Node, b: Tree, n: Node, c: Tree)
    ensures Walk(Fork(Fork(a, m, b), n, c)) == Walk(Fork(a, m, Fork(b, n, c)))
  {
    var wa, wb, wc := Walk(a), Walk(b), Walk(c);
    calc {
      Walk(Fork(Fork(a, m, b), n, c));
      (wa + [m] + wb) + [n] + wc;
      wa + [m] + (wb + [n] + wc);
      Walk(Fork(a, m, Fork(b, n, c)));
    }
  }

  lemma RotationKeepsNodes(t: Tree)
    requires t.Fork? && Proper(t)
    ensures t.l.Fork? ==> Nodes(RotatedRight(t)) == Nodes(t) && Proper(RotatedRight(t))
    ensures t.r.Fork? ==> Nodes(RotatedLeft(t)) == Nodes(t) && Proper(RotatedLeft(t))
  {
  }

  // ---------- The access mark ----------

  /** How many of the links of the top node are empty. */
  ghost function Missing(t: Tree): nat {
    if t.Leaf? then 0 else (if t.l.Leaf? then 1 else 0) + (if t.r.Leaf? then 1 else 0)
  }

  /** The greatest mark there can be between two insertions into a tree of `size` nodes. */
  ghost function MarkLimit(t: Tree, size: nat): nat {
    if t.Leaf? then 1
    else (if Missing(t) == 0 then 8 else if Missing(t) == 1 then 4 else 2) * size
  }

  /** While the tree is not absurdly large the mark is at least 1 and within its limit. */
  ghost predicate Marked(t: Tree, size: nat, mark: nat) {
    size < TWO60 ==> 1 <= mark <= MarkLimit(t, size)
  }

  /** So shifting it loses nothing. */
  lemma NoWrap(p: Path, t: Tree, node: Node, size: nat, mark: nat)
    requires t.Fork? && size >= 1 && Paced(p, t, node, size, mark)
    ensures size < TWO60 ==> Shifted(mark) == 2 * mark < TWO64
  {
  }

  lemma {:induction false} PlugForks(p: Path, t: Tree)
    requires t.Fork?
    ensures Plug(p, t).Fork?
  {
    match p
    case Root =>
    case InLeft(n, r, up) => PlugForks(up, Fork(t, n, r));
    case InRight(l, n, up) => PlugForks(up, Fork(l, n, t));
  }

  /** The mark on the way down: below the root it has been compared to the size, or has just been reset. */
  ghost predicate Paced(p: Path, t: Tree, node: Node, size: nat, mark: nat) {
    size < TWO60 ==>
      && 1 <= mark
      && (t.Leaf? ==> mark <= MarkLimit(Plug(p, Fork(Leaf, node, Leaf)), size + 1))
      && (t.Fork? ==> mark <= if p.Root? then MarkLimit(t, size) else size)
  }

  function Shifted(mark: nat): nat {
    mark * 2 % TWO64
  }

  /** A step down that needs no rotation. */
  lemma PacedStep(p: Path, t: Tree, node: Node, size: nat, mark: nat, left: bool)
    requires t.Fork? && size >= 1 && Paced(p, t, node, size, mark)
    requires var child := if left then t.l else t.r; child.Leaf? || Shifted(mark) <= size
    ensures left ==> Paced(InLeft(t.n, t.r, p), t.l, node, size, Shifted(mark))
    ensures !left ==> Paced(InRight(t.l, t.n, p), t.r, node, size, Shifted(mark))
  {
    var added := Fork(Leaf, node, Leaf);
    PlugForks(p, Fork(added, t.n, t.r));
    PlugForks(p, Fork(t.l, t.n, added));
  }

  /** After a rotation the mark is 1, and the next step is one down. */
  lemma PacedReset(p: Path, t: Tree, node: Node, size: nat)
    requires t.Fork? && size >= 1
    ensures Paced(p, t, node, size, 1)
  {
  }

  // ---------- Where the search for the place of a new run has come to ----------

  /**
    `i` is the position in the walk of the last node that was found not to follow `v`, or -1.
    What is passed on the left does not follow `v`; what is passed on the right does.
   */
  ghost predicate Placed(p: Path, t: Tree, v: Item, i: int) {
    && |WalkBefore(p)| - 1 <= i < |WalkBefore(p)| + |Walk(t)|
    && (forall k :: 0 <= k <= i ==> !Before(v, (WalkBefore(p) + Walk(t))[k].value))
    && (forall k :: 0 <= k < |WalkAfter(p)| ==> Before(v, WalkAfter(p)[k].value))
  }

  lemma SortedParts(a: seq<Node>, b: seq<Node>, c: seq<Node>)
    requires Sorted(Values(a + b + c))
    ensures Sorted(Values(b)) && Sorted(Values(a + b))
  {
    var s := a + b + c;
    assert forall k :: 0 <= k < |a + b| ==> (a + b)[k] == s[k];
    assert forall k :: 0 <= k < |b| ==> b[k] == s[|a| + k];
    forall i, j | 0 <= i < j < |b| ensures !Before(Values(b)[j], Values(b)[i]) {
      assert !Before(Values(s)[|a| + j], Values(s)[|a| + i]);
    }
    forall i, j | 0 <= i < j < |a + b| ensures !Before(Values(a + b)[j], Values(a + b)[i]) {
      assert !Before(Values(s)[j], Values(s)[i]);
    }
  }

  lemma PlacedLeft(p: Path, t: Tree, v: Item, i: int)
    requires t.Fork? && Placed(p, t, v, i) && Before(v, t.n.value) && Sorted(Values(Walk(t)))
    ensures Placed(InLeft(t.n, t.r, p), t.l, v, i)
  {
    var a, b := WalkBefore(p) + Walk(t), WalkBefore(p) + Walk(t.l);
    var q := |b|;
    assert a[q] == t.n;
    assert forall k :: 0 <= k < q ==> a[k] == b[k];
    forall k | 0 <= k < |Walk(t.r)| ensures Before(v, Walk(t.r)[k].value) {
      assert Walk(t)[|Walk(t.l)|] == t.n && Walk(t)[|Walk(t.l)| + 1 + k] == Walk(t.r)[k];
      assert !Before(Values(Walk(t))[|Walk(t.l)| + 1 + k], Values(Walk(t))[|Walk(t.l)|]);
    }
  }

  lemma NoneFollows(a: seq<Node>, q: nat, v: Item)
    requires q < |a| && Sorted(Values(a)) && !Before(v, a[q].value)
    ensures forall k :: 0 <= k <= q ==> !Before(v, a[k].value)
  {
    forall k | 0 <= k <= q ensures !Before(v, a[k].value) {
      assert k < q ==> !Before(Values(a)[q], Values(a)[k]);
    }
  }

  lemma PlacedRight(p: Path, t: Tree, v: Item, i: int)
    requires t.Fork? && Placed(p, t, v, i) && !Before(v, t.n.value)
    requires Sorted(Values(WalkBefore(p) + Walk(t)))
    ensures Placed(InRight(t.l, t.n, p), t.r, v, |WalkBefore(p)| + |Walk(t.l)|)
    ensures Placed(p, t, v, |WalkBefore(p)| + |Walk(t.l)|)
  {
    var q := InRight(t.l, t.n, p);
    assert WalkBefore(q) == WalkBefore(p) + Walk(t.l) + [t.n] && WalkAfter(q) == WalkAfter(p);
    Splice(WalkBefore(p), Walk(t.l), t.n, Walk(t.r));
    assert WalkBefore(q) + Walk(t.r) == WalkBefore(p) + Walk(t);
    hide Sorted, Values, Walk, WalkBefore, WalkAfter, Before;
    NoneFollows(WalkBefore(p) + Walk(t), |WalkBefore(p)| + |Walk(t.l)|, v);
  }

  lemma Splice(w: seq<Node>, l: seq<Node>, n: Node, r: seq<Node>)
    ensures w + (l + [n] + r) == (w + l + [n]) + r && (w + (l + [n] + r))[|w| + |l|] == n
  {
  }

  // ---------- The tree ----------

  class Aiso {
    var root: Node?
    var list: Node?
    var size: nat  // the number of nodes
    var mark: nat  // 64 bits, shifted at every access
    ghost var tree: Tree
    ghost var repr: set<Node>  // the nodes of the tree
    ghost var accesses: nat  // all accesses to nodes so far

    ghost predicate Shaped()
      reads this, repr`left, repr`right
    {
      && repr == Nodes(tree)
      && Proper(tree) && Linked(tree) && Top(tree) == root
      && size == |Walk(tree)|
    }

    ghost predicate Valid()
      reads this, repr
    {
      && Shaped()
      && Threaded(list, Walk(tree))
      && Sorted(Contents())
      && mark < TWO64 && Marked(tree, size, mark)
    }

    /** The runs in the order of the in-order walk, which is also that of the list. */
    ghost function Contents(): seq<Item>
      reads this`tree
    {
      Values(Walk(tree))
    }

    constructor ()
      ensures Valid() && Contents() == [] && repr == {}
    {
      root, list, size, mark := null, null, 0, 1;
      tree, repr, accesses := Leaf, {}, 0;
    }

    // ---------- Steps down the tree ----------

    function Target(h: Hook): Node?
      reads this, if h.AtRoot? then {} else {h.n}
    {
      match h
      case AtRoot => root
      case LeftOf(n) => n.left
      case RightOf(n) => n.right
    }

    /** The path leads to the subtree, and together they are the tree that has this walk. */
    ghost predicate Located(p: Path, t: Tree, walk: seq<Node>)
      reads this`root, PathNodes(p)`left, PathNodes(p)`right, Nodes(t)`left, Nodes(t)`right
    {
      && ProperPath(p) && Proper(t) && Nodes(t) !! PathNodes(p)
      && Linked(t) && Leads(p, root, Top(t))
      && WalkBefore(p) + Walk(t) + WalkAfter(p) == walk
    }

    lemma LinksAt(p: Path, t: Tree, h: Hook, walk: seq<Node>)
      requires Located(p, t, walk) && h == HookAt(p)
      ensures Target(h) == Top(t)
      ensures t.Fork? ==> t.n.left == Top(t.l) && t.n.right == Top(t.r)
      ensures t.Fork? ==> |Walk(t.l)| < |Walk(t)| && |Walk(t.r)| < |Walk(t)| <= |walk|
      ensures t.Fork? ==> t.n in Nodes(t) && PathNodes(InLeft(t.n, t.r, p)) + Nodes(t.l) == PathNodes(p) + Nodes(t)
                          && PathNodes(InRight(t.l, t.n, p)) + Nodes(t.r) == PathNodes(p) + Nodes(t)
      ensures t.Fork? && t.l.Fork? ==> |walk| >= 2
      ensures t.Fork? && t.r.Fork? ==> |walk| >= 2
    {
    }

    /** Makes the place that `h` denotes refer to `x`. */
    method SetTarget(h: Hook, x: Node?, ghost p: Path, ghost was: Node?, ghost t: Tree)
      requires ProperPath(p) && Leads(p, root, was) && h == HookAt(p)
      requires Linked(t) && Nodes(t) !! PathNodes(p)
      modifies this`root, PathNodes(p)`left, PathNodes(p)`right
      ensures Leads(p, root, x) && Linked(t)
    {
      match h {
        case AtRoot => root := x;
        case LeftOf(n) => n.left := x;
        case RightOf(n) => n.right := x;
      }
    }

    /** Turns the left child `A` and its parent `B` around: the subtree between them goes over to `B`. */
    method LiftLeft(an: Node, ghost p: Path, ghost t: Tree) returns (anl: Node)
      requires t.Fork? && t.l.Fork? && t.n == an && Linked(t) && Proper(t)
      requires Leads(p, root, an) && Nodes(t) !! PathNodes(p)
      modifies Nodes(t)`left, Nodes(t)`right
      ensures anl == t.l.n && Linked(RotatedRight(t)) && Leads(p, root, an)
    {
      hide Leads;
      anl := an.left;
      an.left := anl.right;
      anl.right := an;
      assert Linked(t.l.l) && Linked(t.l.r) && Linked(t.r);
      assert Linked(Fork(t.l.r, an, t.r));
    }

    /** The same for the right child. */
    method LiftRight(an: Node, ghost p: Path, ghost t: Tree) returns (anr: Node)
      requires t.Fork? && t.r.Fork? && t.n == an && Linked(t) && Proper(t)
      requires Leads(p, root, an) && Nodes(t) !! PathNodes(p)
      modifies Nodes(t)`left, Nodes(t)`right
      ensures anr == t.r.n && Linked(RotatedLeft(t)) && Leads(p, root, an)
    {
      hide Leads;
      anr := an.right;
      an.right := anr.left;
      anr.left := an;
      assert Linked(t.l) && Linked(t.r.l) && Linked(t.r.r);
      assert Linked(Fork(t.l, an, t.r.l));
    }

    /** Rotates the subtree at `h` to the right. */
    method RotateRight(h: Hook, ghost p: Path, ghost t: Tree, ghost walk: seq<Node>) returns (ghost t': Tree)
      requires Located(p, t, walk) && h == HookAt(p) && t.Fork? && t.l.Fork?
      modifies this`root, PathNodes(p)`left, PathNodes(p)`right, Nodes(t)`left, Nodes(t)`right
      ensures t' == RotatedRight(t) && Nodes(t') == Nodes(t) && Walk(t') == Walk(t)
      ensures Located(p, t', walk)
    {
      hide Walk, WalkBefore, WalkAfter;
      RotationKeepsWalk(t);
      RotationKeepsNodes(t);
      LinksAt(p, t, h, walk);
      hide Leads, ProperPath, Linked, Proper;
      var an := Target(h);
      t' := RotatedRight(t);
      var anl := LiftLeft(an, p, t);
      SetTarget(h, anl, p, an, t');
    }

    /** Rotates the subtree at `h` to the left. */
    method RotateLeft(h: Hook, ghost p: Path, ghost t: Tree, ghost walk: seq<Node>) returns (ghost t': Tree)
      requires Located(p, t, walk) && h == HookAt(p) && t.Fork? && t.r.Fork?
      modifies this`root, PathNodes(p)`left, PathNodes(p)`right, Nodes(t)`left, Nodes(t)`right
      ensures t' == RotatedLeft(t) && Nodes(t') == Nodes(t) && Walk(t') == Walk(t)
      ensures Located(p, t', walk)
    {
      hide Walk, WalkBefore, WalkAfter;
      RotationKeepsWalk(t);
      RotationKeepsNodes(t);
      LinksAt(p, t, h, walk);
      hide Leads, ProperPath, Linked, Proper;
      var an := Target(h);
      t' := RotatedLeft(t);
      var anr := LiftRight(an, p, t);
      SetTarget(h, anr, p, an, t');
    }

    /** The search for the place of `v` has come to `h`; `prev` is the last node found not to follow `v`. */
    ghost predicate Searching(p: Path, t: Tree, h: Hook, prev: Node?, i: int, walk: seq<Node>, v: Item)
      reads this, PathNodes(p)`left, PathNodes(p)`right, Nodes(t)`left, Nodes(t)`right
    {
      && Located(p, t, walk) && h == HookAt(p)
      && Placed(p, t, v, i) && prev == (if i < 0 then null else (WalkBefore(p) + Walk(t))[i])
      && size == |walk| && Sorted(Values(walk))
    }

    lemma SearchLeft(p: Path, t: Tree, h: Hook, prev: Node?, i: int, walk: seq<Node>, v: Item)
      requires Searching(p, t, h, prev, i, walk, v) && t.Fork? && Before(v, t.n.value)
      ensures Searching(InLeft(t.n, t.r, p), t.l, LeftOf(t.n), prev, i, walk, v)
    {
      SortedParts(WalkBefore(p), Walk(t), WalkAfter(p));
      PlacedLeft(p, t, v, i);
      Reassociate(WalkBefore(p), Walk(t.l), [t.n], Walk(t.r), WalkAfter(p));
      LocatedInLeft(p, t, walk);
      var a, b := WalkBefore(p) + Walk(t), WalkBefore(p) + Walk(t.l);
      assert i >= 0 ==> a[i] == b[i];
    }

    /** Whether or not the step to the right is taken, the node itself is now the last that does not follow `v`. */
    lemma SearchRight(p: Path, t: Tree, h: Hook, prev: Node?, i: int, walk: seq<Node>, v: Item)
      requires Searching(p, t, h, prev, i, walk, v) && t.Fork? && !Before(v, t.n.value)
      ensures var q := |WalkBefore(p)| + |Walk(t.l)|;
        && Searching(p, t, h, t.n, q, walk, v)
        && Searching(InRight(t.l, t.n, p), t.r, RightOf(t.n), t.n, q, walk, v)
    {
      SortedParts(WalkBefore(p), Walk(t), WalkAfter(p));
      PlacedRight(p, t, v, i);
      Reassociate(WalkBefore(p), Walk(t.l), [t.n], Walk(t.r), WalkAfter(p));
      LocatedInRight(p, t, walk);
    }

    lemma LocatedInLeft(p: Path, t: Tree, walk: seq<Node>)
      requires Located(p, t, walk) && t.Fork?
      ensures Located(InLeft(t.n, t.r, p), t.l, walk)
    {
      Reassociate(WalkBefore(p), Walk(t.l), [t.n], Walk(t.r), WalkAfter(p));
    }

    lemma LocatedInRight(p: Path, t: Tree, walk: seq<Node>)
      requires Located(p, t, walk) && t.Fork?
      ensures Located(InRight(t.l, t.n, p), t.r, walk)
    {
      Reassociate(WalkBefore(p), Walk(t.l), [t.n], Walk(t.r), WalkAfter(p));
    }

    /** A rotation leaves the search where it is. */
    lemma SearchRotated(p: Path, t: Tree, t': Tree, h: Hook, prev: Node?, i: int, walk: seq<Node>, v: Item)
      requires Located(p, t', walk) && Walk(t') == Walk(t) && h == HookAt(p)
      requires Placed(p, t, v, i) && prev == (if i < 0 then null else (WalkBefore(p) + Walk(t))[i])
      requires size == |walk| && Sorted(Values(walk))
      ensures Searching(p, t', h, prev, i, walk, v)
    {
    }

    /** The state of the search, with the mark, inside the tree. */
    ghost predicate Underway(p: Path, t: Tree, h: Hook, prev: Node?, i: int, v: Item, node: Node)
      reads this, PathNodes(p)`left, PathNodes(p)`right, Nodes(t)`left, Nodes(t)`right
    {
      && Searching(p, t, h, prev, i, Walk(tree), v)
      && mark < TWO64 && Paced(p, t, node, size, mark)
      && PathNodes(p) + Nodes(t) == repr
    }

    /** The mark is doubled at every access; nothing is lost that way. */
    lemma AccessDoesNotWrap(h: Hook, prev: Node?, v: Item, node: Node, p: Path, t: Tree, i: int)
      requires Underway(p, t, h, prev, i, v, node) && t.Fork? && size < 0x1000_0000_0000_0000
      ensures Shifted(mark) == 2 * mark < 0x1_0000_0000_0000_0000
    {
      assert size >= 1 by {
        LinksAt(p, t, h, Walk(tree));
      }
      hide Searching;
      NoWrap(p, t, node, size, mark);
    }

    /** A rotation to the right on the way down, with a fresh mark. */
    method TurnRight(h: Hook, prev: Node?, v: Item, ghost node: Node, ghost p: Path, ghost t: Tree, ghost i: int)
      returns (ghost t': Tree)
      requires Searching(p, t, h, prev, i, Walk(tree), v) && t.Fork? && t.l.Fork? && PathNodes(p) + Nodes(t) == repr
      modifies this`root, this`mark, PathNodes(p)`left, PathNodes(p)`right, Nodes(t)`left, Nodes(t)`right
      ensures Underway(p, t', h, prev, i, v, node) && Walk(t') == Walk(t) && mark == 1
    {
      hide Placed, Paced, Linked, Leads, Proper, ProperPath, Sorted, Values, Walk, WalkBefore, WalkAfter;
      hide Nodes, PathNodes;
      ghost var walk := Walk(tree);
      LinksAt(p, t, h, walk);
      t' := RotateRight(h, p, t, walk);
      mark := 1;
      SearchRotated(p, t, t', h, prev, i, walk, v);
      PacedReset(p, t', node, size);
    }

    method TurnLeft(h: Hook, prev: Node?, v: Item, ghost node: Node, ghost p: Path, ghost t: Tree, ghost i: int)
      returns (ghost t': Tree)
      requires Searching(p, t, h, prev, i, Walk(tree), v) && t.Fork? && t.r.Fork? && PathNodes(p) + Nodes(t) == repr
      modifies this`root, this`mark, PathNodes(p)`left, PathNodes(p)`right, Nodes(t)`left, Nodes(t)`right
      ensures Underway(p, t', h, prev, i, v, node) && Walk(t') == Walk(t) && mark == 1
    {
      hide Placed, Paced, Linked, Leads, Proper, ProperPath, Sorted, Values, Walk, WalkBefore, WalkAfter;
      hide Nodes, PathNodes;
      ghost var walk := Walk(tree);
      LinksAt(p, t, h, walk);
      t' := RotateLeft(h, p, t, walk);
      mark := 1;
      SearchRotated(p, t, t', h, prev, i, walk, v);
      PacedReset(p, t', node, size);
    }

    /** One access: either a step down, or a rotation and a fresh mark. */
    method Access(h: Hook, prev: Node?, v: Item, ghost node: Node, ghost p: Path, ghost t: Tree, ghost i: int)
      returns (h': Hook, prev': Node?, ghost p': Path, ghost t': Tree, ghost i': int)
      requires Underway(p, t, h, prev, i, v, node) && t.Fork?
      modifies this`root, this`mark, this`accesses, PathNodes(p)`left, PathNodes(p)`right, Nodes(t)`left, Nodes(t)`right
      ensures Underway(p', t', h', prev', i', v, node)
      ensures |Walk(t')| < |Walk(t)| || (Walk(t') == Walk(t) && old(mark) > 1 && mark == 1)
      ensures accesses == old(accesses) + 1
    {
      hide Placed, Paced, Linked, Leads, Proper, ProperPath, Sorted, Values, Walk, WalkBefore, WalkAfter, Nodes;
      hide PathNodes;
      ghost var walk := Walk(tree);
      LinksAt(p, t, h, walk);
      var an := Target(h);
      p', t', i', h', prev' := p, t, i, h, prev;
      accesses := accesses + 1;
      mark := Shifted(mark);
      if Before(v, an.value) {
        SearchLeft(p, t, h, prev, i, walk, v);
        if an.left == null || mark <= size {
          PacedStep(p, t, node, size, old(mark), true);
          p', t', h' := InLeft(an, t.r, p), t.l, LeftOf(an);
        } else {
          t' := TurnRight(h, prev, v, node, p, t, i);
        }
      } else {
        SearchRight(p, t, h, prev, i, walk, v);
        i' := |WalkBefore(p)| + |Walk(t.l)|;
        if an.right == null || mark <= size {
          PacedStep(p, t, node, size, old(mark), false);
          p', t', h' := InRight(t.l, an, p), t.r, RightOf(an);
        } else {
          t' := TurnLeft(h, an, v, node, p, t, i');
        }
        prev' := an;
      }
    }

    /**
      Goes down to the empty place where `v` belongs. Every access doubles the mark; when the mark
      exceeds the size, and it can be done, the tree is rotated and the mark reset. A rotation is
      followed by a step down, so there are no more accesses than twice the nodes.
     */
    method FindPlace(v: Item, ghost node: Node) returns (h: Hook, prev: Node?, ghost p: Path)
      requires Valid()
      modifies this`root, this`mark, this`accesses, repr`left, repr`right
      ensures Underway(p, Leaf, h, prev, |WalkBefore(p)| - 1, v, node)
      ensures accesses <= old(accesses) + 2 * size
    {
      hide Searching, Paced, Linked, Walk, Sorted, Marked;
      ghost var t, i, rotated := tree, -1, false;
      h, prev, p := AtRoot, null, Root;
      SearchStart(v, node);
      SearchTarget(p, t, h, prev, i, v, node);
      while Target(h) != null
        invariant Underway(p, t, h, prev, i, v, node) && Target(h) == Top(t)
        invariant accesses + 2 * |Walk(t)| <= old(accesses) + 2 * size + if rotated then 1 else 0
        invariant rotated ==> mark == 1 && Target(h) != null
        decreases |Walk(t)|, if mark > 1 then 1 else 0
      {
        ghost var before := |Walk(t)|;
        h, prev, p, t, i := Access(h, prev, v, node, p, t, i);
        SearchTarget(p, t, h, prev, i, v, node);
        rotated := |Walk(t)| == before;
      }
      SearchTarget(p, t, h, prev, i, v, node);
    }

    lemma SearchStart(v: Item, node: Node)
      requires Valid()
      ensures Underway(Root, tree, AtRoot, null, -1, v, node)
    {
      hide Linked, Threaded, Sorted, Values, Walk, Proper;
      assert WalkBefore(Root) + Walk(tree) + WalkAfter(Root) == Walk(tree);
    }

    lemma SearchTarget(p: Path, t: Tree, h: Hook, prev: Node?, i: int, v: Item, node: Node)
      requires Underway(p, t, h, prev, i, v, node)
      ensures Target(h) == Top(t)
      ensures t.Leaf? ==> i == |WalkBefore(p)| - 1
      ensures t.Leaf? <==> Walk(t) == []
    {
    }

    /** Links `node` into the list, behind `prev` or at the start. */
    method Thread(node: Node, prev: Node?, ghost a: seq<Node>, ghost b: seq<Node>)
      requires Threaded(list, a + b) && Distinct(a + b) && node !in a && node !in b
      requires prev == if a == [] then null else a[|a| - 1]
      modifies this`list, node`next, a`next
      ensures Threaded(list, a + [node] + b)
    {
      ghost var s, s' := a + b, a + [node] + b;
      AtInserted(a, node, b);
      if prev == null {
        node.next := list;
        list := node;
      } else {
        assert prev == s[|a| - 1];
        node.next := prev.next;
        prev.next := node;
      }
      assert node.next == At(s, |a|);
      assert forall k :: 0 <= k < |s| && k != |a| - 1 ==> s[k].next == At(s, k + 1);
      forall k | 0 <= k < |s'| ensures s'[k].next == At(s', k + 1) {
        assert s'[k] == At(s', k);
        assert At(s', k + 1) == if k + 1 < |a| then At(s, k + 1) else if k + 1 == |a| then node else At(s, k);
      }
    }

    /** `h` is the empty place on the path `p`, and `prev` the node before it in the walk. */
    ghost predicate Vacant(p: Path, h: Hook, prev: Node?)
      reads this`root, this`tree, this`repr, PathNodes(p)`left, PathNodes(p)`right
    {
      && ProperPath(p) && Leads(p, root, null) && h == HookAt(p)
      && PathNodes(p) == repr == Nodes(tree) && WalkBefore(p) + WalkAfter(p) == Walk(tree)
      && prev == if WalkBefore(p) == [] then null else WalkBefore(p)[|WalkBefore(p)| - 1]
    }

    lemma PlaceIsVacant(p: Path, h: Hook, prev: Node?, v: Item, node: Node)
      requires Underway(p, Leaf, h, prev, |WalkBefore(p)| - 1, v, node) && repr == Nodes(tree)
      ensures Vacant(p, h, prev) && Placed(p, Leaf, v, |WalkBefore(p)| - 1) && size == |Walk(tree)|
    {
      hide Leads, Linked, Paced, Sorted, Values, Placed, Distinct;
      assert WalkBefore(p) + Walk(Leaf) == WalkBefore(p);
    }

    /** Puts a new node in the empty place. */
    method Graft(node: Node, h: Hook, prev: Node?, ghost p: Path)
      requires Vacant(p, h, prev) && size == |Walk(tree)| && Proper(tree)
      requires node !in repr && node.left == null && node.right == null
      modifies this`root, this`size, this`tree, this`repr, repr`left, repr`right
      ensures tree == Plug(p, Fork(Leaf, node, Leaf)) && repr == old(repr) + {node}
      ensures Walk(tree) == WalkBefore(p) + [node] + WalkAfter(p)
      ensures Shaped() && size == old(size) + 1
    {
      hide Leads, Linked, Proper, ProperPath, Walk, WalkBefore, WalkAfter, Plug, PathNodes, Nodes;
      ghost var t := Fork(Leaf, node, Leaf);
      Singleton(node);
      SetTarget(h, node, p, null, t);
      Grafted(p, node);
      PluggedLinked(p, t, root);
      size, tree, repr := size + 1, Plug(p, t), repr + {node};
    }

    lemma Grafted(p: Path, node: Node)
      requires ProperPath(p) && node !in PathNodes(p)
      ensures var t := Fork(Leaf, node, Leaf);
        && Proper(Plug(p, t)) && Nodes(Plug(p, t)) == PathNodes(p) + {node}
        && Walk(Plug(p, t)) == WalkBefore(p) + [node] + WalkAfter(p)
        && |Walk(Plug(p, t))| == |WalkBefore(p) + WalkAfter(p)| + 1
    {
      hide ProperPath, Plug, WalkBefore, WalkAfter, PathNodes;
      var t := Fork(Leaf, node, Leaf);
      assert Walk(t) == [node] && Nodes(t) == {node} && Proper(t);
      WalkPlugged(p, t);
      PluggedProper(p, t);
    }

    lemma Singleton(node: Node)
      requires node.left == null && node.right == null
      ensures var t := Fork(Leaf, node, Leaf); Linked(t) && Proper(t) && Walk(t) == [node] && Nodes(t) == {node}
    {
    }

    /** Puts a new node in the empty place, and into the list. */
    method Attach(node: Node, h: Hook, prev: Node?, ghost p: Path)
      requires Vacant(p, h, prev) && size == |Walk(tree)| && Proper(tree) && Distinct(Walk(tree))
      requires Threaded(list, Walk(tree))
      requires node !in repr && node.left == null && node.right == null
      modifies this`root, this`list, this`size, this`tree, this`repr, node, repr
      ensures tree == Plug(p, Fork(Leaf, node, Leaf)) && repr == old(repr) + {node}
      ensures Walk(tree) == WalkBefore(p) + [node] + WalkAfter(p)
      ensures Shaped() && Threaded(list, Walk(tree)) && size == old(size) + 1
    {
      hide Leads, Linked, Proper, ProperPath, Distinct, Threaded, Walk, Nodes, Plug;
      ghost var walk := WalkBefore(p) + [node] + WalkAfter(p);
      Thread(node, prev, WalkBefore(p), WalkAfter(p));
      assert Threaded(list, walk);
      Graft(node, h, prev, p);
    }

    /** Finds the empty place for a new node. */
    method FindVacancy(node: Node) returns (h: Hook, prev: Node?, ghost p: Path)
      requires Valid()
      modifies this`root, this`mark, this`accesses, repr`left, repr`right
      ensures accesses <= old(accesses) + 2 * size
      ensures Vacant(p, h, prev) && Placed(p, Leaf, node.value, |WalkBefore(p)| - 1)
      ensures size == |Walk(tree)| && Threaded(list, Walk(tree))
      ensures mark < TWO64 && Marked(Plug(p, Fork(Leaf, node, Leaf)), size + 1, mark)
    {
      hide Leads, Linked, Proper, ProperPath, Distinct, Sorted, Values, Marked, Placed, Paced, Searching, Threaded;
      hide Walk, Nodes, Plug, PathNodes;
      assert Threaded(list, Walk(tree));
      h, prev, p := FindPlace(node.value, node);
      assert Threaded(list, Walk(tree));
      PlaceIsVacant(p, h, prev, node.value, node);
      PacedMarked(p, node, size, mark);
    }

    /** Puts a new node where its value belongs. */
    method Place(node: Node)
      requires Valid() && node !in repr && node.left == null && node.right == null
      modifies this, node, repr
      ensures accesses <= old(accesses) + 2 * old(size)
      ensures Valid() && Contents() == Inserted(old(Contents()), node.value)
      ensures repr == old(repr) + {node}
    {
      hide Leads, Linked, Proper, ProperPath, Distinct, Sorted, Values, Marked, Placed, Threaded, Walk, Nodes, Plug;
      hide PathNodes, WalkBefore, WalkAfter;
      ProperDistinct(tree);
      var h, prev, p := FindVacancy(node);
      InsertedInWalk(node, p);
      Attach(node, h, prev, p);
    }

    /**
      Inserts a run; fails, and changes nothing, when there is no memory for a node. It takes no more
      accesses than twice the nodes there are.
     */
    method Insert(v: Item, memory: bool) returns (ok: bool)
      requires Valid()
      modifies this, repr
      ensures Valid() && ok == memory
      ensures Contents() == if ok then Inserted(old(Contents()), v) else old(Contents())
      ensures if ok then IsInserted(old(Contents()), v, Contents()) else Contents() == old(Contents())
      ensures old(repr) <= repr && fresh(repr - old(repr))
      ensures accesses <= old(accesses) + 2 * old(size)
    {
      if !memory {
        return false;
      }
      hide Sorted, Inserted, IsInserted, Threaded, Values, Walk;
      InsertedIs(Contents(), v);
      var node := new Node(v);
      Place(node);
      ok := true;
    }

    /** The mark stays within 8 times the size, so 64 bits hold it as long as the size is below 2^60. */
    lemma MarkWithinBounds()
      requires Valid() && size < 0x1000_0000_0000_0000
      ensures 1 <= mark <= 8 * (if size == 0 then 1 else size) < 0x1_0000_0000_0000_0000
    {
    }

    lemma PacedMarked(p: Path, node: Node, size: nat, mark: nat)
      requires Paced(p, Leaf, node, size, mark)
      ensures Marked(Plug(p, Fork(Leaf, node, Leaf)), size + 1, mark)
    {
    }

    lemma InsertedInWalk(node: Node, p: Path)
      requires Placed(p, Leaf, node.value, |WalkBefore(p)| - 1)
      requires Sorted(Values(WalkBefore(p) + WalkAfter(p)))
      ensures Values(WalkBefore(p) + [node] + WalkAfter(p)) ==
              Inserted(Values(WalkBefore(p) + WalkAfter(p)), node.value)
      ensures Sorted(Values(WalkBefore(p) + [node] + WalkAfter(p)))
    {
      var a, b, v := WalkBefore(p), WalkAfter(p), node.value;
      assert Values(a + b) == Values(a) + Values(b);
      assert Values(a + [node] + b) == Values(a) + [v] + Values(b);
      assert a + Walk(Leaf) == a;
      InsertedAt(Values(a), Values(b), v);
      InsertedSorted(Values(a + b), v);
    }

    /** The value at the iterator and the iterator's next position, if there is one. */
    method GetItem(it: Node?, ghost walk: seq<Node>, ghost k: nat) returns (ok: bool, v: Item, next: Node?)
      requires Threaded(list, walk) && it == At(walk, k)
      ensures ok == (k < |walk|)
      ensures ok ==> v == walk[k].value && next == At(walk, k + 1)
    {
      if it == null {
        ok, v, next := false, Item(0, 0), null;
      } else {
        ok, v, next := true, it.value, it.next;
      }
    }

    /** Iterates over a list. */
    method IterateOver(ghost walk: seq<Node>) returns (runs: seq<Item>)
      requires Threaded(list, walk)
      ensures runs == Values(walk)
    {
      runs := [];
      ghost var k := 0;
      assert list == At(walk, 0);
      hide At, Threaded;
      var ok, v, it := GetItem(list, walk, 0);
      while ok
        invariant k <= |walk| && |runs| == k && ok == (k < |walk|)
        invariant forall i :: 0 <= i < k ==> runs[i] == walk[i].value
        invariant ok ==> v == walk[k].value && it == At(walk, k + 1)
        decreases |walk| - k
      {
        runs, k := runs + [v], k + 1;
        ok, v, it := GetItem(it, walk, k);
      }
    }

    /** Iterates over all runs. */
    method Iterate() returns (runs: seq<Item>)
      requires Valid()
      ensures runs == Contents()
    {
      runs := IterateOver(Walk(tree));
    }
  }

  /** The first items of a sequence that are kept. */
  ghost function Kept(items: seq<Item>, keep: seq<bool>, n: nat): seq<Item>
    requires n <= |items| && n <= |keep|
  {
    if n == 0 then [] else Kept(items, keep, n - 1) + if keep[n - 1] then [items[n - 1]] else []
  }

  /**
    Collects the runs as they are found, and delivers them in the order in which they are shown. A
    run for which there is no memory is not kept; `overflow` tells that there was one. Memory is always
    available if `memory` says so, and may or may not be otherwise.
   */
  method CollectRuns(items: seq<Item>, memory: bool) returns (sorted: seq<Item>, overflow: bool, ghost keep: seq<bool>)
    ensures |keep| == |items| && sorted == InsertedAll(Kept(items, keep, |items|))
    ensures forall i, j :: 0 <= i < j < |sorted| ==> sorted[i].size >= sorted[j].size
    ensures multiset(sorted) == multiset(Kept(items, keep, |items|))
    ensures forall size: nat :: OfSize(sorted, size) == OfSize(Kept(items, keep, |items|), size)
    ensures overflow == (false in keep) && (memory ==> !overflow)
  {
    hide Aiso.Valid, Aiso.Contents, Inserted, InsertedAll, Kept;
    NoneKept(items);
    var collection := new Aiso();
    overflow, keep := false, [];
    for i := 0 to |items|
      invariant collection.Valid() && fresh(collection) && fresh(collection.repr)
      invariant |keep| == i && collection.Contents() == InsertedAll(Kept(items, keep, i))
      invariant overflow == (false in keep) && (memory ==> !overflow)
    {
      var available: bool := *;
      var ok := collection.Insert(items[i], memory || available);
      overflow := overflow || !ok;
      KeptNext(items, keep, i, ok);
      keep := keep + [ok];
    }
    sorted := collection.Iterate();
    InsertedAllIsStableSort(Kept(items, keep, |items|));
  }

  lemma {:induction false} KeptSame(items: seq<Item>, keep: seq<bool>, n: nat, more: seq<bool>)
    requires n <= |items| && n <= |keep|
    ensures Kept(items, keep + more, n) == Kept(items, keep, n)
  {
    if n > 0 {
      KeptSame(items, keep, n - 1, more);
      assert (keep + more)[n - 1] == keep[n - 1];
    }
  }

  lemma NoneKept(items: seq<Item>)
    ensures InsertedAll(Kept(items, [], 0)) == []
  {
  }

  lemma KeptNext(items: seq<Item>, keep: seq<bool>, n: nat, ok: bool)
    requires n < |items| && |keep| == n
    ensures var k := Kept(items, keep, n);
      Kept(items, keep + [ok], n + 1) == (if ok then k + [items[n]] else k)
      && InsertedAll(Kept(items, keep + [ok], n + 1)) ==
         (if ok then Inserted(InsertedAll(k), items[n]) else InsertedAll(k))
  {
    KeptSame(items, keep, n, [ok]);
    var k := Kept(items, keep, n);
    assert (k + [items[n]])[..|k|] == k;
  }

  /** If all are kept, the items are what is kept. */
  lemma {:induction false} AllKept(items: seq<Item>, keep: seq<bool>, n: nat)
    requires n <= |items| && n <= |keep| && forall i :: 0 <= i < |keep| ==> keep[i]
    ensures Kept(items, keep, n) == items[..n]
  {
    if n > 0 {
      AllKept(items, keep, n - 1);
    }
  }
}
