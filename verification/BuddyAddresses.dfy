/** Blocks as addresses: the index conversions of src/buddy.c, and the free lists as
    they lie in memory, threaded through the free blocks themselves. */
module BuddyAddresses {
  import opened Words
  import opened BuddyTree
  import opened BuddySpec
  import opened BuddyLayout
  import opened LinkedLists

  function Address(root: nat, usable: nat, node: nat): nat
    requires node < NodeCount(root)
  {
    usable + PAGE * Start(root, node)
  }

  /** src/buddy.c: ptr_to_node_index. */
  function PtrToNodeIndex(root: nat, usable: nat, ptr: nat, order: nat): nat
    requires usable <= ptr && order <= root
  {
    DivNonNegative(ptr - usable, BlockBytes(order));
    Pow2(root - order) - 1 + (ptr - usable) / BlockBytes(order)
  }

  /** src/buddy.c: node_index_to_ptr. */
  function NodeIndexToPtr(root: nat, usable: nat, node: nat, order: nat): nat
    requires order <= root && node >= Pow2(root - order) - 1
  {
    usable + (node - (Pow2(root - order) - 1)) * BlockBytes(order)
  }

  /** On every row the two conversions of the source are inverse, and they meet the
      address of the block. */
  lemma IndexAddressInverse(root: nat, usable: nat, node: nat)
    requires node < NodeCount(root)
    ensures var o := Order(root, node);
            && o <= root && node >= Pow2(root - o) - 1
            && NodeIndexToPtr(root, usable, node, o) == Address(root, usable, node)
            && PtrToNodeIndex(root, usable, Address(root, usable, node), o) == node
  {
    NodePageInverse(root, node);
    var o := Order(root, node);
    StartIsProduct(root, node);
    assert RowIndex(node) * BlockBytes(o) == PAGE * (RowIndex(node) * Pow2(o)) by {
      MulAssoc(RowIndex(node), PAGE, Pow2(o));
    }
    DivModUnique(PAGE * Start(root, node), BlockBytes(o), RowIndex(node), 0);
  }

  lemma MulAssoc(a: nat, b: nat, c: nat)
    ensures a * (b * c) == b * (a * c)
  {
    assert a * (b * c) == (a * b) * c;
    assert (b * a) * c == b * (a * c);
  }

  predicate NodesValid(root: nat, s: seq<nat>) {
    forall i :: 0 <= i < |s| ==> s[i] < NodeCount(root)
  }

  function Addresses(root: nat, usable: nat, s: seq<nat>): seq<nat>
    requires NodesValid(root, s)
  {
    seq(|s|, i requires 0 <= i < |s| => Address(root, usable, s[i]))
  }

  /** Each order's list in memory holds the blocks of its nodes. */
  ghost predicate ListsAgree(root: nat, usable: nat, heads: seq<nat>, links: Memory, lists: seq<seq<nat>>) {
    && |heads| == |lists| == root + 1
    && (forall o :: 0 <= o <= root ==> NodesValid(root, lists[o]))
    && (forall o :: 0 <= o <= root ==> ListAt(links, heads[o], Addresses(root, usable, lists[o])))
  }

  /** No two listed blocks start at the same page. */
  ghost predicate Spread(root: nat, lists: seq<seq<nat>>) {
    && |lists| == root + 1
    && (forall o :: 0 <= o <= root ==> NodesValid(root, lists[o]) && Distinct(lists[o]))
    && forall o: nat, k: nat, m: nat, n: nat {:trigger m in lists[o], n in lists[k]} ::
         o <= root && k <= root && m in lists[o] && n in lists[k] && o != k ==>
         m < NodeCount(root) && n < NodeCount(root) && Start(root, m) != Start(root, n)
  }

  /** `n` starts where no listed block starts. */
  ghost predicate Unlisted(root: nat, lists: seq<seq<nat>>, n: nat) {
    && n < NodeCount(root)
    && forall o: nat, m: nat {:trigger m in lists[o]} :: o < |lists| && m in lists[o] ==>
         m < NodeCount(root) && Start(root, m) != Start(root, n)
  }

  lemma LeafStartsDiffer(p: Pool, m: nat, n: nat)
    requires Shape(p) && LiveLeaf(p.tree, m) && LiveLeaf(p.tree, n) && Start(p.root, m) == Start(p.root, n)
    ensures m == n
  {
    StartCovered(p.root, m);
    StartCovered(p.root, n);
    LeafUnique(p.root, p.tree, m, n, Start(p.root, n));
  }

  lemma SoundIsSpread(p: Pool)
    requires Inv(p)
    ensures Spread(p.root, p.lists)
    ensures forall n <- Fulls(p) :: Unlisted(p.root, p.lists, n)
  {
    hide Live, Depth, Pow2, Start;
    forall o, i | 0 <= o <= p.root && 0 <= i < |p.lists[o]|
      ensures p.lists[o][i] < NodeCount(p.root)
    {
      assert p.lists[o][i] in p.lists[o];
      Listed(p, o, p.lists[o][i]);
    }
    forall o: nat, k: nat, m: nat, n: nat | o <= p.root && k <= p.root && m in p.lists[o] && n in p.lists[k] && o != k
      ensures m < NodeCount(p.root) && n < NodeCount(p.root) && Start(p.root, m) != Start(p.root, n)
    {
      Listed(p, o, m);
      Listed(p, k, n);
      if Start(p.root, m) == Start(p.root, n) {
        LeafStartsDiffer(p, m, n);
      }
    }
    forall n, o: nat, m: nat | n in Fulls(p) && o < |p.lists| && m in p.lists[o]
      ensures m < NodeCount(p.root) && Start(p.root, m) != Start(p.root, n)
    {
      Listed(p, o, m);
      if Start(p.root, m) == Start(p.root, n) {
        LeafStartsDiffer(p, m, n);
      }
    }
  }

  lemma InAddresses(root: nat, usable: nat, s: seq<nat>, n: nat)
    requires NodesValid(root, s) && n < NodeCount(root)
    ensures n in s ==> Address(root, usable, n) in Addresses(root, usable, s)
    ensures (forall m :: m in s ==> m < NodeCount(root) && Start(root, m) != Start(root, n)) ==>
              Address(root, usable, n) !in Addresses(root, usable, s)
  {
    if n in s {
      var i :| 0 <= i < |s| && s[i] == n;
      assert Addresses(root, usable, s)[i] == Address(root, usable, n);
    }
  }

  lemma AddressesApart(root: nat, usable: nat, lists: seq<seq<nat>>, o: nat, k: nat, x: nat)
    requires Spread(root, lists) && o <= root && k <= root && o != k && x in Addresses(root, usable, lists[o])
    ensures x !in Addresses(root, usable, lists[k])
  {
    var i :| 0 <= i < |lists[o]| && x == Addresses(root, usable, lists[o])[i];
    var m := lists[o][i];
    assert m in lists[o];
    forall j | 0 <= j < |lists[k]|
      ensures Addresses(root, usable, lists[k])[j] != x
    {
      assert lists[k][j] in lists[k];
    }
  }

  lemma PushAgrees(root: nat, usable: nat, heads: seq<nat>, links: Memory, lists: seq<seq<nat>>, o: nat, n: nat)
    requires ListsAgree(root, usable, heads, links, lists) && Spread(root, lists) && Unlisted(root, lists, n)
    requires o <= root && usable > 0
    ensures var x := Address(root, usable, n);
            ListsAgree(root, usable, heads[o := x], Push(links, heads[o], x), lists[o := [n] + lists[o]])
  {
    var x := Address(root, usable, n);
    forall k | 0 <= k <= root
      ensures x !in Addresses(root, usable, lists[k])
    {
      InAddresses(root, usable, lists[k], n);
    }
    PushList(links, heads[o], Addresses(root, usable, lists[o]), x);
    assert Addresses(root, usable, [n] + lists[o]) == [x] + Addresses(root, usable, lists[o]);
    forall k | 0 <= k <= root && k != o
      ensures ListAt(Push(links, heads[o], x), heads[k], Addresses(root, usable, lists[k]))
    {
      forall y | y in Addresses(root, usable, lists[o])
        ensures y !in Addresses(root, usable, lists[k])
      {
        AddressesApart(root, usable, lists, o, k, y);
      }
      PushFrame(links, heads[o], Addresses(root, usable, lists[o]), x, heads[k], Addresses(root, usable, lists[k]));
    }
  }

  lemma AddressesWithout(root: nat, usable: nat, s: seq<nat>, n: nat)
    requires NodesValid(root, s) && n in s && Distinct(s) && Distinct(Addresses(root, usable, s))
    ensures NodesValid(root, Without(s, n)) && n < NodeCount(root)
    ensures Addresses(root, usable, Without(s, n)) == Without(Addresses(root, usable, s), Address(root, usable, n))
  {
    hide Address, NodeCount, Without;
    var i :| 0 <= i < |s| && s[i] == n;
    var a := Addresses(root, usable, s);
    WithoutAt(s, i);
    assert a[i] == Address(root, usable, n);
    WithoutAt(a, i);
    assert Addresses(root, usable, s[..i] + s[i + 1..]) == a[..i] + a[i + 1..];
  }

  lemma RemoveOwnList(root: nat, usable: nat, head: nat, links: Memory, s: seq<nat>, n: nat)
    requires NodesValid(root, s) && ListAt(links, head, Addresses(root, usable, s)) && n in s && Distinct(s)
    ensures n < NodeCount(root) && Address(root, usable, n) in links && NodesValid(root, Without(s, n))
    ensures var x := Address(root, usable, n);
            ListAt(Remove(links, x), RemoveHead(links, head, x), Addresses(root, usable, Without(s, n)))
  {
    hide Address, NodeCount, Without, Remove, RemoveHead, Addresses;
    AddressesWithout(root, usable, s, n);
    InAddresses(root, usable, s, n);
    RemoveList(links, head, Addresses(root, usable, s), Address(root, usable, n));
  }

  lemma RemoveAgrees(root: nat, usable: nat, heads: seq<nat>, links: Memory, lists: seq<seq<nat>>, o: nat, n: nat)
    requires ListsAgree(root, usable, heads, links, lists) && Spread(root, lists)
    requires o <= root && n in lists[o]
    ensures n < NodeCount(root)
    ensures var x := Address(root, usable, n);
            && x in links
            && ListsAgree(root, usable, heads[o := RemoveHead(links, heads[o], x)], Remove(links, x),
                          lists[o := Without(lists[o], n)])
  {
    hide Address, NodeCount, Without, Remove, RemoveHead, Addresses, ListAt, NodesValid, Distinct;
    RemoveOwnList(root, usable, heads[o], links, lists[o], n);
    forall k | 0 <= k <= root && k != o
      ensures ListAt(Remove(links, Address(root, usable, n)), heads[k], Addresses(root, usable, lists[k]))
    {
      RemoveOtherList(root, usable, heads, links, lists, o, n, k);
    }
  }

  lemma RemoveOtherList(root: nat, usable: nat, heads: seq<nat>, links: Memory, lists: seq<seq<nat>>, o: nat, n: nat,
                        k: nat)
    requires ListsAgree(root, usable, heads, links, lists) && Spread(root, lists)
    requires o <= root && n in lists[o] && n < NodeCount(root) && k <= root && k != o
    requires Address(root, usable, n) in links
    ensures ListAt(Remove(links, Address(root, usable, n)), heads[k], Addresses(root, usable, lists[k]))
  {
    forall y | y in Addresses(root, usable, lists[o])
      ensures y !in Addresses(root, usable, lists[k])
    {
      AddressesApart(root, usable, lists, o, k, y);
    }
    InAddresses(root, usable, lists[o], n);
    RemoveFrame(links, heads[o], Addresses(root, usable, lists[o]), Address(root, usable, n), heads[k],
                Addresses(root, usable, lists[k]));
  }

  /** Memory outside the listed blocks may change freely. */
  lemma ForgetLink(root: nat, usable: nat, heads: seq<nat>, links: Memory, lists: seq<seq<nat>>, n: nat)
    requires ListsAgree(root, usable, heads, links, lists) && Unlisted(root, lists, n)
    ensures ListsAgree(root, usable, heads, links - {Address(root, usable, n)}, lists)
  {
    forall k | 0 <= k <= root
      ensures ListAt(links - {Address(root, usable, n)}, heads[k], Addresses(root, usable, lists[k]))
    {
      InAddresses(root, usable, lists[k], n);
      Frame(links, links - {Address(root, usable, n)}, heads[k], Addresses(root, usable, lists[k]));
    }
  }
}
