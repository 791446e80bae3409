/** The buddy pool of src/buddy.c on values: its marks and, per order, the nodes on
    the free list from head to tail. `Alloc` and `Free` mirror the two loops of the
    source; the theorems are about every pool those operations can reach. */
module BuddySpec {
  import opened Words
  import opened BuddyTree

  datatype Pool = Pool(root: nat, tree: seq<Mark>, lists: seq<seq<nat>>)

  /** src/buddy.c: buddy_pool_create. Every mark but the root's starts FULL. */
  function Create(root: nat): Pool {
    Pool(root,
         seq(NodeCount(root), i => if i == 0 then FREE else FULL),
         seq(root + 1, o => if o == root then [0] else []))
  }

  predicate Shape(p: Pool) {
    |p.tree| == NodeCount(p.root) && |p.lists| == p.root + 1
  }

  /** Free lists hold live FREE nodes of their order, all of them, once each. */
  ghost predicate ListsSound(p: Pool) {
    && Shape(p)
    && (forall o: nat, n: nat :: 0 <= o <= p.root && n in p.lists[o] ==>
          LiveAs(p.tree, n, FREE) && Order(p.root, n) == o)
    && (forall n: nat :: LiveAs(p.tree, n, FREE) ==> n in p.lists[Order(p.root, n)])
    && (forall o :: 0 <= o <= p.root ==> Distinct(p.lists[o]))
  }

  /** Maximal coalescing: no live node has two FREE halves. */
  ghost predicate Coalesced(tree: seq<Mark>) {
    forall n: nat :: LiveAs(tree, n, SPLIT) ==> !(LiveAs(tree, NodeLeft(n), FREE) && LiveAs(tree, NodeRight(n), FREE))
  }

  /** The run invariant. Everything is said of live nodes only. */
  ghost predicate Inv(p: Pool) {
    Shape(p) && ListsSound(p) && SplitsHaveChildren(p.root, p.tree) && Coalesced(p.tree)
  }

  /** The blocks handed out: the live FULL nodes. */
  function Fulls(p: Pool): set<nat> {
    set n | 0 <= n < |p.tree| && LiveAs(p.tree, n, FULL)
  }

  /** Two pools that differ at most in stale marks. */
  ghost predicate SameLive(p: Pool, q: Pool) {
    && p.root == q.root && p.lists == q.lists && |p.tree| == |q.tree|
    && forall n :: 0 <= n < |p.tree| ==>
                     Live(p.tree, n) == Live(q.tree, n) && (Live(p.tree, n) ==> p.tree[n] == q.tree[n])
  }

  lemma Listed(p: Pool, o: nat, n: nat)
    requires Inv(p) && o <= p.root && n in p.lists[o]
    ensures LiveAs(p.tree, n, FREE) && Order(p.root, n) == o
  {
    hide Live, Depth, Pow2;
  }

  // -------------------------------------------------------------- operations

  /** The search loop of buddy_alloc: least order from `o` up with a free block. */
  function FirstNonEmpty(lists: seq<seq<nat>>, o: nat): (r: nat)
    requires o <= |lists|
    ensures o <= r <= |lists|
    ensures forall k :: o <= k < r ==> lists[k] == []
    ensures r < |lists| ==> lists[r] != []
    decreases |lists| - o
  {
    if o < |lists| && lists[o] == [] then FirstNonEmpty(lists, o + 1) else o
  }

  function SetMark(p: Pool, n: nat, m: Mark): Pool
    requires n < |p.tree|
  {
    p.(tree := p.tree[n := m])
  }

  function SetList(p: Pool, o: nat, s: seq<nat>): Pool
    requires o < |p.lists|
  {
    p.(lists := p.lists[o := s])
  }

  predicate OnRow(p: Pool, n: nat, order: nat) {
    Shape(p) && n < |p.tree| && Order(p.root, n) == order
  }

  /** One turn of the splitting loop: the right half goes on its free list. */
  function SplitOnce(p: Pool, n: nat, order: nat): Pool
    requires OnRow(p, n, order) && order > 0
  {
    ChildOrders(p.root, n);
    var t := p.tree[n := SPLIT][NodeLeft(n) := FREE][NodeRight(n) := FREE];
    Pool(p.root, t, p.lists[order - 1 := [NodeRight(n)] + p.lists[order - 1]])
  }

  /** The splitting loop; the result names the block that remains. */
  function SplitDown(p: Pool, n: nat, order: nat, target: nat): (r: (Pool, nat))
    requires OnRow(p, n, order) && target <= order
    ensures OnRow(r.0, r.1, target) && r.0.root == p.root
    decreases order
  {
    if order == target then (p, n)
    else
      ChildOrders(p.root, n);
      SplitDown(SplitOnce(p, n, order), NodeLeft(n), order - 1, target)
  }

  /** src/buddy.c: buddy_alloc after the order has been computed. */
  function Alloc(p: Pool, target: nat): (Pool, Option<nat>)
    requires Inv(p)
  {
    if target > p.root then (p, None)
    else
      var o := FirstNonEmpty(p.lists, target);
      if o > p.root then (p, None)
      else
        var n := p.lists[o][0];
        Listed(p, o, n);
        var r := SplitDown(SetList(p, o, Without(p.lists[o], n)), n, o, target);
        (SetMark(r.0, r.1, FULL), Some(r.1))
  }

  /** One turn of the coalescing loop: `n` and its buddy become their parent. */
  function MergeOnce(p: Pool, n: nat, order: nat): Pool
    requires OnRow(p, n, order) && n > 0
  {
    BuddyInTree(p.root, n);
    var t := p.tree[n := FREE][NodeBuddy(n) := FREE][NodeParent(n) := FREE];
    Pool(p.root, t, p.lists[order := Without(p.lists[order], NodeBuddy(n))])
  }

  /** The coalescing loop of buddy_free, ending with the push. */
  function Coalesce(p: Pool, n: nat, order: nat): (q: Pool)
    requires OnRow(p, n, order)
    ensures Shape(q) && q.root == p.root
    decreases n
  {
    RowZero(p.root, n);
    if order == p.root then SetList(p, order, [n] + p.lists[order])
    else
      BuddyInTree(p.root, n);
      if p.tree[NodeBuddy(n)] != FREE then SetList(p, order, [n] + p.lists[order])
      else Coalesce(MergeOnce(p, n, order), NodeParent(n), order + 1)
  }

  /** src/buddy.c: buddy_free of the block of node `n`. */
  function Free(p: Pool, n: nat): Pool
    requires Shape(p) && n < |p.tree|
  {
    Coalesce(SetMark(p, n, FREE), n, Order(p.root, n))
  }

  // ---------------------------------------------- four steps on sound pools

  lemma {:induction false} CreateSound(root: nat)
    ensures Inv(Create(root)) && Fulls(Create(root)) == {}
  {
    var p := Create(root);
    forall n | 0 <= n < |p.tree| && Live(p.tree, n)
      ensures n == 0
    {
    }
    DepthInTree(root, 0);
    assert p.lists[root] == [0];
  }

  /** `u` is `t` with the mark of one live leaf changed from `was` to `now`. */
  ghost predicate Remarked(t: seq<Mark>, u: seq<Mark>, n: nat, was: Mark, now: Mark) {
    && LiveAs(t, n, was) && LiveAs(u, n, now)
    && forall k: nat, m :: LiveAs(u, k, m) <==> if k == n then m == now else LiveAs(t, k, m)
  }

  lemma RemarkLive(t: seq<Mark>, n: nat, now: Mark)
    requires LiveLeaf(t, n) && now != SPLIT
    ensures Remarked(t, t[n := now], n, t[n], now)
  {
    LiveAgree(t, t[n := now], n);
    assert LiveAs(t[n := now], n, now);
    forall k: nat, m
      ensures LiveAs(t[n := now], k, m) <==> if k == n then m == now else LiveAs(t, k, m)
    {
      if k < |t| {
        LiveAgree(t, t[n := now], k);
      }
    }
  }

  /** A free block leaves its list and is marked FULL. */
  lemma Take(p: Pool, n: nat)
    requires Inv(p) && LiveAs(p.tree, n, FREE)
    ensures var q := SetList(SetMark(p, n, FULL), Order(p.root, n), Without(p.lists[Order(p.root, n)], n));
            Inv(q) && Fulls(q) == Fulls(p) + {n} && LiveAs(q.tree, n, FULL)
  {
    var o := Order(p.root, n);
    RemarkLive(p.tree, n, FULL);
    TakeKeepsInv(p, SetList(SetMark(p, n, FULL), o, Without(p.lists[o], n)), n, o);
  }

  lemma TakeKeepsInv(p: Pool, q: Pool, n: nat, o: nat)
    requires Inv(p) && OnRow(p, n, o) && Remarked(p.tree, q.tree, n, FREE, FULL)
    requires Shape(q) && q.root == p.root && q.lists == p.lists[o := Without(p.lists[o], n)]
    ensures Inv(q) && Fulls(q) == Fulls(p) + {n}
  {
    hide Live, Depth, Pow2, NodeLeft, NodeRight;
    WithoutDistinct(p.lists[o], n);
    forall k: nat, m: nat | 0 <= k <= q.root && m in q.lists[k]
      ensures LiveAs(q.tree, m, FREE) && Order(q.root, m) == k
    {
      Listed(p, k, m);
    }
  }

  /** A FULL block with no free buddy goes back on its list. */
  lemma Release(p: Pool, n: nat)
    requires Inv(p) && LiveAs(p.tree, n, FULL) && NoFreeSibling(p.tree, n)
    ensures var q := SetList(SetMark(p, n, FREE), Order(p.root, n), [n] + p.lists[Order(p.root, n)]);
            Inv(q) && Fulls(q) == Fulls(p) - {n} && LiveAs(q.tree, n, FREE)
  {
    var o := Order(p.root, n);
    RemarkLive(p.tree, n, FREE);
    ReleaseKeepsInv(p, SetList(SetMark(p, n, FREE), o, [n] + p.lists[o]), n, o);
  }

  lemma ReleaseKeepsInv(p: Pool, q: Pool, n: nat, o: nat)
    requires Inv(p) && OnRow(p, n, o) && Remarked(p.tree, q.tree, n, FULL, FREE) && NoFreeSibling(p.tree, n)
    requires Shape(q) && q.root == p.root && q.lists == p.lists[o := [n] + p.lists[o]]
    ensures Inv(q) && Fulls(q) == Fulls(p) - {n}
  {
    hide Live, Depth, Pow2, NodeLeft, NodeRight;
    assert n !in p.lists[o];
    forall k: nat, m: nat | 0 <= k <= q.root && m in q.lists[k]
      ensures LiveAs(q.tree, m, FREE) && Order(q.root, m) == k
    {
      if m in p.lists[k] {
        Listed(p, k, m);
      }
    }
    forall k: nat | LiveAs(q.tree, k, SPLIT)
      ensures !(LiveAs(q.tree, NodeLeft(k), FREE) && LiveAs(q.tree, NodeRight(k), FREE))
    {
      assert LiveAs(p.tree, k, SPLIT);
      NoFreeSiblingAt(p.tree, n, k);
    }
  }

  lemma NoFreeSiblingAt(tree: seq<Mark>, n: nat, k: nat)
    requires NoFreeSibling(tree, n)
    ensures NodeLeft(k) != NodeRight(k)
    ensures n == NodeLeft(k) ==> !LiveAs(tree, NodeRight(k), FREE)
    ensures n == NodeRight(k) ==> !LiveAs(tree, NodeLeft(k), FREE)
  {
  }

  ghost predicate NoFreeSibling(tree: seq<Mark>, n: nat) {
    forall k: nat ::
      && (n == NodeLeft(k) ==> !LiveAs(tree, NodeRight(k), FREE))
      && (n == NodeRight(k) ==> !LiveAs(tree, NodeLeft(k), FREE))
  }

  /** `u` is `t` with the leaf `n` split into halves marked `lm` and `rm`. */
  ghost predicate LeafSplits(t: seq<Mark>, u: seq<Mark>, n: nat, lm: Mark, rm: Mark) {
    && (forall m :: LiveAs(u, n, m) <==> m == SPLIT)
    && (forall m :: LiveAs(u, NodeLeft(n), m) <==> m == lm)
    && (forall m :: LiveAs(u, NodeRight(n), m) <==> m == rm)
    && (forall m :: !LiveAs(t, NodeLeft(n), m) && !LiveAs(t, NodeRight(n), m))
    && forall k: nat, m :: k != n && k != NodeLeft(n) && k != NodeRight(n) ==> (LiveAs(u, k, m) <==> LiveAs(t, k, m))
  }

  lemma LeafSplitsIntro(t: seq<Mark>, u: seq<Mark>, n: nat)
    requires |t| == |u| && NodeRight(n) < |t| && LiveLeaf(t, n)
    requires u[n] == SPLIT && u[NodeLeft(n)] != SPLIT && u[NodeRight(n)] != SPLIT
    requires forall k :: 0 <= k < |t| && k != n && k != NodeLeft(n) && k != NodeRight(n) ==> t[k] == u[k]
    ensures LeafSplits(t, u, n, u[NodeLeft(n)], u[NodeRight(n)])
  {
    forall k | 0 <= k < |t|
      ensures Live(u, k) <==> (Live(t, k) || k == NodeLeft(n) || k == NodeRight(n))
      ensures Live(t, k) ==> k != NodeLeft(n) && k != NodeRight(n)
    {
      LiveSplit(t, u, n, k);
    }
  }

  function SplitFull(p: Pool, n: nat): Pool
    requires Shape(p) && n < |p.tree| && Order(p.root, n) > 0
  {
    ChildOrders(p.root, n);
    var o := Order(p.root, n);
    Pool(p.root, p.tree[n := SPLIT][NodeLeft(n) := FULL][NodeRight(n) := FREE],
         p.lists[o - 1 := [NodeRight(n)] + p.lists[o - 1]])
  }

  /** A FULL block becomes a FULL left half and a free right half. */
  lemma Split(p: Pool, n: nat)
    requires Inv(p) && LiveAs(p.tree, n, FULL) && Order(p.root, n) > 0
    ensures var q := SplitFull(p, n);
            && Inv(q) && Fulls(q) == Fulls(p) - {n} + {NodeLeft(n)} && LiveAs(q.tree, NodeLeft(n), FULL)
            && NodeLeft(n) !in Fulls(p)
  {
    var q := SplitFull(p, n);
    ChildOrders(p.root, n);
    LeafSplitsIntro(p.tree, q.tree, n);
    SplitKeepsInv(p, q, n);
  }

  lemma SplitKeepsInv(p: Pool, q: Pool, n: nat)
    requires Inv(p) && LiveAs(p.tree, n, FULL) && Order(p.root, n) > 0
    requires LeafSplits(p.tree, q.tree, n, FULL, FREE) && Shape(q) && q.root == p.root
    requires q.lists == p.lists[Order(p.root, n) - 1 := [NodeRight(n)] + p.lists[Order(p.root, n) - 1]]
    ensures Inv(q) && Fulls(q) == Fulls(p) - {n} + {NodeLeft(n)} && NodeLeft(n) !in Fulls(p)
  {
    hide Live, Pow2;
    ChildOrders(p.root, n);
    DepthInTree(p.root, n);
    hide Depth;
    var l, r, o := NodeLeft(n), NodeRight(n), Order(p.root, n);
    assert r !in p.lists[o - 1];
    forall i: nat, k: nat | 0 <= i <= q.root && k in q.lists[i]
      ensures LiveAs(q.tree, k, FREE) && Order(q.root, k) == i
    {
      assert k in p.lists[i] || (k == r && i == o - 1);
    }
    forall k: nat | LiveAs(q.tree, k, SPLIT)
      ensures Depth(k) < q.root
      ensures !(LiveAs(q.tree, NodeLeft(k), FREE) && LiveAs(q.tree, NodeRight(k), FREE))
    {
      if k != n {
        assert LiveAs(p.tree, k, SPLIT);
      }
    }
  }

  function MergeFull(p: Pool, n: nat): Pool
    requires Shape(p) && 0 < n < |p.tree|
  {
    BuddyInTree(p.root, n);
    var o := Order(p.root, n);
    Pool(p.root, p.tree[n := FREE][NodeBuddy(n) := FREE][NodeParent(n) := FULL],
         p.lists[o := Without(p.lists[o], NodeBuddy(n))])
  }

  /** A FULL block and its free buddy become their FULL parent. */
  lemma Merge(p: Pool, n: nat)
    requires Inv(p) && n > 0 && LiveAs(p.tree, n, FULL)
    requires LiveAs(p.tree, NodeBuddy(n), FREE)
    ensures var q := MergeFull(p, n);
            && Inv(q) && Fulls(q) == Fulls(p) - {n} + {NodeParent(n)} && LiveAs(q.tree, NodeParent(n), FULL)
            && NodeParent(n) !in Fulls(p)
  {
    var q := MergeFull(p, n);
    BuddyInTree(p.root, n);
    var b, m := NodeBuddy(n), NodeParent(n);
    assert NodeLeft(m) in {n, b} && NodeRight(m) in {n, b} && n in {NodeLeft(m), NodeRight(m)};
    LiveAgreeAt(q.tree, p.tree, m);
    LeafSplitsIntro(q.tree, p.tree, m);
    MergeKeepsInv(p, q, n, b, m);
  }

  lemma MergeKeepsInv(p: Pool, q: Pool, n: nat, b: nat, m: nat)
    requires Inv(p) && LiveAs(p.tree, n, FULL) && LiveAs(p.tree, b, FREE)
    requires (n == NodeLeft(m) && b == NodeRight(m)) || (n == NodeRight(m) && b == NodeLeft(m))
    requires m < |p.tree| && LiveAs(q.tree, m, FULL)
    requires Order(p.root, b) == Order(p.root, n)
    requires LeafSplits(q.tree, p.tree, m, p.tree[NodeLeft(m)], p.tree[NodeRight(m)])
    requires Shape(q) && q.root == p.root
    requires q.lists == p.lists[Order(p.root, n) := Without(p.lists[Order(p.root, n)], b)]
    ensures Inv(q) && Fulls(q) == Fulls(p) - {n} + {m} && m !in Fulls(p)
  {
    hide Live, Pow2, Depth;
    var o := Order(p.root, n);
    WithoutDistinct(p.lists[o], b);
    forall i: nat, k: nat | 0 <= i <= q.root && k in q.lists[i]
      ensures LiveAs(q.tree, k, FREE) && Order(q.root, k) == i
    {
      assert k in p.lists[i];
      assert LiveAs(p.tree, k, FREE) && k != b && k != n && k != m;
    }
    forall k: nat | LiveAs(q.tree, k, SPLIT)
      ensures Depth(k) < q.root
      ensures !(LiveAs(q.tree, NodeLeft(k), FREE) && LiveAs(q.tree, NodeRight(k), FREE))
    {
      assert k != m && k != n && k != b;
      assert LiveAs(p.tree, k, SPLIT);
    }
  }

  /** Liveness of a node depends only on nodes above it. */
  lemma {:induction false} LiveAgreeAt(t: seq<Mark>, u: seq<Mark>, node: nat)
    requires |t| == |u| && node < |t|
    requires forall k :: 0 <= k < node ==> t[k] == u[k]
    ensures Live(t, node) == Live(u, node)
  {
    if node > 0 {
      LiveAgreeAt(t, u, NodeParent(node));
    }
  }

  // ------------------------------------------------ the loops keep the invariant

  /** While it splits, buddy_alloc holds one block outside every list. Marking that
      block FULL gives a sound pool. */
  ghost predicate Holding(p: Pool, n: nat) {
    Shape(p) && n < |p.tree| && p.tree[n] == FREE && Inv(SetMark(p, n, FULL)) && Live(p.tree, n)
  }

  /** The outstanding blocks if the held block were handed out as it is. */
  function Held(p: Pool, n: nat): set<nat>
    requires n < |p.tree|
  {
    Fulls(SetMark(p, n, FULL))
  }

  lemma HeldContains(p: Pool, n: nat)
    requires Holding(p, n)
    ensures n in Held(p, n) && LiveAs(p.tree, n, FREE)
  {
    LiveAgreeAt(p.tree, SetMark(p, n, FULL).tree, n);
  }

  lemma SplitOnceHolds(p: Pool, n: nat, order: nat)
    requires Holding(p, n) && OnRow(p, n, order) && order > 0
    ensures var q := SplitOnce(p, n, order);
            && Holding(q, NodeLeft(n)) && q.root == p.root
            && OnRow(q, NodeLeft(n), order - 1)
            && Held(q, NodeLeft(n)) == Held(p, n) - {n} + {NodeLeft(n)}
            && NodeLeft(n) !in Held(p, n)
  {
    var f := SetMark(p, n, FULL);
    LiveAgreeAt(p.tree, f.tree, n);
    Split(f, n);
    SplitOnceIsSplitFull(p, n, order);
    ChildOrders(p.root, n);
    LiveAgreeAt(SplitOnce(p, n, order).tree, SplitFull(f, n).tree, NodeLeft(n));
    hide Live, Pow2, Depth, ListsSound, Coalesced, SplitFull;
  }

  lemma SplitOnceIsSplitFull(p: Pool, n: nat, order: nat)
    requires OnRow(p, n, order) && order > 0
    ensures NodeLeft(n) < |p.tree| && Shape(SplitOnce(p, n, order))
    ensures SetMark(SplitOnce(p, n, order), NodeLeft(n), FULL) == SplitFull(SetMark(p, n, FULL), n)
    ensures SplitOnce(p, n, order).tree[NodeLeft(n)] == FREE
  {
    ChildOrders(p.root, n);
    assert SetMark(SplitOnce(p, n, order), NodeLeft(n), FULL).tree == SplitFull(SetMark(p, n, FULL), n).tree;
  }

  lemma {:induction false} SplitDownSound(p: Pool, n: nat, order: nat, target: nat)
    requires Holding(p, n) && OnRow(p, n, order) && target <= order
    ensures var (q, m) := SplitDown(p, n, order, target);
            && Holding(q, m) && Order(q.root, m) == target
            && Start(q.root, m) == Start(p.root, n)
            && Held(q, m) == Held(p, n) - {n} + {m}
    decreases order
  {
    hide Live, Depth, Pow2, SplitOnce, Start, Holding, Held, Order;
    if order == target {
      HeldContains(p, n);
    } else {
      ChildStarts(p.root, n);
      SplitOnceHolds(p, n, order);
      SplitDownSound(SplitOnce(p, n, order), NodeLeft(n), order - 1, target);
    }
  }

  /** buddy_alloc keeps the invariant; on success exactly one block of the asked
      order, free until then, becomes outstanding. */
  lemma AllocSound(p: Pool, target: nat)
    requires Inv(p)
    ensures var (q, r) := Alloc(p, target);
            && Inv(q) && q.root == p.root
            && (r.None? ==> q == p)
            && (r.Some? ==> var n := r.value;
                            && LiveAs(q.tree, n, FULL) && Order(q.root, n) == target
                            && n !in Fulls(p) && Fulls(q) == Fulls(p) + {n})
  {
    if target <= p.root && FirstNonEmpty(p.lists, target) <= p.root {
      var o := FirstNonEmpty(p.lists, target);
      var n := p.lists[o][0];
      assert n in p.lists[o];
      Take(p, n);
      var h := SetList(p, o, Without(p.lists[o], n));
      assert SetMark(h, n, FULL) == SetList(SetMark(p, n, FULL), o, Without(p.lists[o], n));
      SplitDownSound(h, n, o, target);
      var (q, m) := SplitDown(h, n, o, target);
      LiveAgreeAt(q.tree, SetMark(q, m, FULL).tree, m);
      assert n !in Fulls(p);
      if m in Fulls(p) {
        StartCovered(p.root, m);
        StartCovered(p.root, n);
        LeafUnique(p.root, p.tree, m, n, Start(p.root, n));
        assert false;
      }
    }
  }

  lemma StartCovered(root: nat, n: nat)
    requires n < NodeCount(root)
    ensures Covers(root, n, Start(root, n))
  {
  }

  lemma MergeOnceHolds(p: Pool, n: nat, order: nat)
    requires Holding(p, n) && OnRow(p, n, order) && n > 0
    requires NodeBuddy(n) < |p.tree| && p.tree[NodeBuddy(n)] == FREE
    ensures var q := MergeOnce(p, n, order);
            && Holding(q, NodeParent(n)) && OnRow(q, NodeParent(n), order + 1)
            && Held(q, NodeParent(n)) == Held(p, n) - {n} + {NodeParent(n)}
            && NodeParent(n) !in Held(p, n)
  {
    BuddyInTree(p.root, n);
    var f, m, q := SetMark(p, n, FULL), NodeParent(n), MergeOnce(p, n, order);
    LiveAgreeAt(p.tree, f.tree, n);
    BuddyIsLive(f, n);
    Merge(f, n);
    assert SetMark(q, m, FULL).tree == MergeFull(f, n).tree;
    LiveAgreeAt(q.tree, SetMark(q, m, FULL).tree, m);
  }

  lemma BuddyIsLive(p: Pool, n: nat)
    requires Shape(p) && 0 < n < |p.tree| && Live(p.tree, n)
    ensures NodeBuddy(n) < |p.tree| && Live(p.tree, NodeBuddy(n))
  {
    BuddyInTree(p.root, n);
  }

  lemma CoalesceEnds(p: Pool, n: nat, order: nat)
    requires Holding(p, n) && OnRow(p, n, order)
    requires n > 0 ==> NodeBuddy(n) < |p.tree| && p.tree[NodeBuddy(n)] != FREE
    ensures var q := SetList(p, order, [n] + p.lists[order]);
            Inv(q) && Fulls(q) == Held(p, n) - {n}
  {
    var f := SetMark(p, n, FULL);
    HeldContains(p, n);
    LiveAgreeAt(p.tree, f.tree, n);
    RowZero(p.root, n);
    forall k: nat | n == NodeLeft(k) || n == NodeRight(k)
      ensures n == NodeLeft(k) ==> !LiveAs(f.tree, NodeRight(k), FREE)
      ensures n == NodeRight(k) ==> !LiveAs(f.tree, NodeLeft(k), FREE)
    {
      SiblingIsBuddy(k);
    }
    Release(f, n);
    assert SetMark(f, n, FREE).tree == p.tree;
  }

  /** The coalescing loop, seen with the block it carries marked FULL. */
  lemma {:induction false} CoalesceSound(p: Pool, n: nat, order: nat)
    requires Holding(p, n) && OnRow(p, n, order)
    ensures var q := Coalesce(p, n, order);
            Inv(q) && Fulls(q) == Held(p, n) - {n}
    decreases n
  {
    hide Live, Depth, Pow2, Inv, Fulls, MergeOnce, Held, Holding, Order, LiveAs, NodeCount;
    RowZero(p.root, n);
    if order == p.root || p.tree[NodeBuddy(n)] != FREE {
      CoalesceEnds(p, n, order);
    } else {
      MergeOnceHolds(p, n, order);
      CoalesceSound(MergeOnce(p, n, order), NodeParent(n), order + 1);
    }
  }

  lemma RowZero(root: nat, n: nat)
    requires n < NodeCount(root)
    ensures Order(root, n) <= root && (Order(root, n) == root <==> n == 0)
    ensures n > 0 ==> NodeBuddy(n) < NodeCount(root) && NodeBuddy(n) != n
  {
    DepthInTree(root, n);
    if n > 0 {
      BuddyInTree(root, n);
    }
  }

  /** buddy_free of an outstanding block keeps the invariant and takes exactly that
      block out of the outstanding set. */
  lemma FreeSound(p: Pool, n: nat)
    requires Inv(p) && n in Fulls(p)
    ensures Inv(Free(p, n)) && Free(p, n).root == p.root && Fulls(Free(p, n)) == Fulls(p) - {n}
  {
    var h := SetMark(p, n, FREE);
    LiveAgreeAt(h.tree, p.tree, n);
    assert SetMark(h, n, FULL).tree == p.tree;
    CoalesceSound(h, n, Order(p.root, n));
  }
}
