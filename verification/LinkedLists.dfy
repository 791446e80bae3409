/** The intrusive doubly linked lists of src/buddy.c and src/slab.c: links live in
    the memory of the elements, 0 is NULL. */
module LinkedLists {
  import opened Words

  datatype Link = Link(next: nat, prev: nat)

  type Memory = map<nat, Link>

  function At(s: seq<nat>, i: int): nat {
    if 0 <= i < |s| then s[i] else 0
  }

  /** Following `next` from `head` visits exactly `s`, and each `prev` points back. */
  ghost predicate ListAt(m: Memory, head: nat, s: seq<nat>) {
    && head == At(s, 0) && 0 !in s && Distinct(s)
    && (forall i :: 0 <= i < |s| ==> s[i] in m)
    && (forall i {:trigger m[s[i]]} :: 0 <= i < |s| ==> m[s[i]] == Link(At(s, i + 1), At(s, i - 1)))
  }

  function SetNext(m: Memory, x: nat, v: nat): Memory
  {
    if x in m then m[x := m[x].(next := v)] else m
  }

  function SetPrev(m: Memory, x: nat, v: nat): Memory
  {
    if x in m then m[x := m[x].(prev := v)] else m
  }

  /** list_push / slab_push: the new memory; the new head is `x`. */
  function Push(m: Memory, head: nat, x: nat): Memory {
    var m1 := m[x := Link(head, 0)];
    if head != 0 then SetPrev(m1, head, x) else m1
  }

  /** list_remove / slab_remove: the new head. */
  function RemoveHead(m: Memory, head: nat, x: nat): nat
    requires x in m
  {
    if head == x then m[x].next else head
  }

  /** list_remove / slab_remove: the new memory. */
  function Remove(m: Memory, x: nat): Memory
    requires x in m
  {
    var l := m[x];
    var m1 := if l.prev != 0 then SetNext(m, l.prev, l.next) else m;
    var m2 := if l.next != 0 then SetPrev(m1, l.next, l.prev) else m1;
    m2[x := Link(0, 0)]
  }

  lemma PushList(m: Memory, head: nat, s: seq<nat>, x: nat)
    requires ListAt(m, head, s) && x != 0 && x !in s
    ensures ListAt(Push(m, head, x), x, [x] + s)
  {
    var t := [x] + s;
    var m' := Push(m, head, x);
    forall i | 0 <= i < |t|
      ensures t[i] in m' && m'[t[i]] == Link(At(t, i + 1), At(t, i - 1))
    {
      if i > 0 {
        assert t[i] == s[i - 1];
      }
    }
  }

  lemma RemovedLink(m: Memory, head: nat, s: seq<nat>, k: nat, j: nat)
    requires ListAt(m, head, s) && k < |s| && j < |s| && j != k
    ensures s[k] in m && s[j] in Remove(m, s[k])
    ensures Remove(m, s[k])[s[j]] == Link(if j + 1 == k then At(s, k + 1) else At(s, j + 1),
                                          if j == k + 1 then At(s, k - 1) else At(s, j - 1))
  {
    assert m[s[k]] == Link(At(s, k + 1), At(s, k - 1)) && m[s[j]] == Link(At(s, j + 1), At(s, j - 1));
    assert j + 1 != k && k > 0 ==> s[j] != s[k - 1];
    assert j != k + 1 && k + 1 < |s| ==> s[j] != s[k + 1];
  }

  lemma AtRemoved(s: seq<nat>, k: nat, i: nat)
    requires k < |s| && i < |s| - 1
    ensures var t := s[..k] + s[k + 1..];
            var j := if i < k then i else i + 1;
            && t[i] == s[j]
            && At(t, i + 1) == (if j + 1 == k then At(s, k + 1) else At(s, j + 1))
            && At(t, i - 1) == (if j == k + 1 then At(s, k - 1) else At(s, j - 1))
  {
  }

  lemma RemovedLinks(m: Memory, head: nat, s: seq<nat>, k: nat)
    requires ListAt(m, head, s) && k < |s|
    ensures s[k] in m
    ensures var t := s[..k] + s[k + 1..];
            forall i :: 0 <= i < |t| ==>
              t[i] in Remove(m, s[k]) && Remove(m, s[k])[t[i]] == Link(At(t, i + 1), At(t, i - 1))
  {
    hide Remove, At;
    var t := s[..k] + s[k + 1..];
    forall i | 0 <= i < |t|
      ensures t[i] in Remove(m, s[k]) && Remove(m, s[k])[t[i]] == Link(At(t, i + 1), At(t, i - 1))
    {
      AtRemoved(s, k, i);
      RemovedLink(m, head, s, k, if i < k then i else i + 1);
    }
  }

  lemma RemoveList(m: Memory, head: nat, s: seq<nat>, x: nat)
    requires ListAt(m, head, s) && x in s
    ensures x in m && ListAt(Remove(m, x), RemoveHead(m, head, x), Without(s, x))
  {
    hide Remove, Without;
    var k :| 0 <= k < |s| && s[k] == x;
    RemovedLinks(m, head, s, k);
    WithoutAt(s, k);
    WithoutDistinct(s, x);
    assert m[s[k]] == Link(At(s, k + 1), At(s, k - 1));
  }

  /** A list is untouched by changes to the links of other elements. */
  lemma Frame(m: Memory, m': Memory, head: nat, s: seq<nat>)
    requires ListAt(m, head, s)
    requires forall x :: x in s ==> x in m' && m'[x] == m[x]
    ensures ListAt(m', head, s)
  {
  }

  lemma PushFrame(m: Memory, head: nat, s: seq<nat>, x: nat, other: nat, t: seq<nat>)
    requires ListAt(m, head, s) && ListAt(m, other, t)
    requires x !in t && forall y :: y in s ==> y !in t
    ensures ListAt(Push(m, head, x), other, t)
  {
    if head != 0 {
      assert s[0] in s;
    }
    Frame(m, Push(m, head, x), other, t);
  }

  lemma RemoveFrame(m: Memory, head: nat, s: seq<nat>, x: nat, other: nat, t: seq<nat>)
    requires ListAt(m, head, s) && ListAt(m, other, t) && x in s
    requires forall y :: y in s ==> y !in t
    ensures x in m && ListAt(Remove(m, x), other, t)
  {
    var k :| 0 <= k < |s| && s[k] == x;
    assert m[s[k]] == Link(At(s, k + 1), At(s, k - 1));
    if At(s, k + 1) != 0 {
      assert s[k + 1] in s;
    }
    if At(s, k - 1) != 0 {
      assert s[k - 1] in s;
    }
    Frame(m, Remove(m, x), other, t);
  }
}
