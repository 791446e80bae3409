/** src/debug_free.c: the ring of recently freed pointers behind the double-free
    check. The ring has any positive number of entries; 0 is an empty one. */
module FreedRing {
  import opened Words

  const FREED_RECORDS: nat := 8192

  datatype Ring = Ring(entries: seq<nat>, next: nat)

  function Forget(r: Ring, p: nat): Ring {
    Ring(seq(|r.entries|, i requires 0 <= i < |r.entries| => if r.entries[i] == p then 0 else r.entries[i]), r.next)
  }

  /** sigma_debug_check_double_free: true means it panics. */
  predicate IsDoubleFree(r: Ring, p: nat) {
    p != 0 && p in r.entries
  }

  function Record(r: Ring, p: nat): Ring
    requires r.next < |r.entries|
  {
    Ring(r.entries[r.next := p], (r.next + 1) % |r.entries|)
  }

  // ------------------------------------------------------------- object

  class FreedRecords {
    var ptrs: array<nat>
    var next: nat

    ghost predicate Valid()
      reads this
    {
      next < ptrs.Length
    }

    ghost function View(): Ring
      reads this, ptrs
    {
      Ring(ptrs[..], next)
    }

    constructor (size: nat)
      requires size > 0
      ensures Valid() && fresh(ptrs) && View() == Ring(seq(size, _ => 0), 0)
    {
      ptrs := new nat[size](_ => 0);
      next := 0;
      new;
      assert ptrs[..] == seq(size, _ => 0);
    }

    /** sigma_debug_forget_freed. */
    method ForgetFreed(p: nat)
      requires Valid()
      modifies ptrs
      ensures Valid() && View() == Forget(old(View()), p)
    {
      for i := 0 to ptrs.Length
        invariant forall k :: 0 <= k < ptrs.Length ==> ptrs[k] == if k < i && old(ptrs[k]) == p then 0 else old(ptrs[k])
      {
        if ptrs[i] == p {
          ptrs[i] := 0;
        }
      }
    }

    /** sigma_debug_check_double_free: a scan that stops at the first match. */
    method CheckDoubleFree(p: nat) returns (panics: bool)
      requires Valid()
      ensures panics <==> IsDoubleFree(View(), p)
    {
      var found: nat, i: nat := 0, 0;
      while i < ptrs.Length
        invariant i <= ptrs.Length && found == 0 && forall k :: 0 <= k < i ==> ptrs[k] != p
      {
        if ptrs[i] == p {
          found := ptrs[i];
          break;
        }
        i := i + 1;
      }
      panics := found != 0;
    }

    /** sigma_debug_record_free. */
    method RecordFree(p: nat)
      requires Valid()
      modifies this`next, ptrs
      ensures Valid() && ptrs == old(ptrs) && View() == Record(old(View()), p)
    {
      ptrs[next] := p;
      next := (next + 1) % ptrs.Length;
    }
  }

  // ------------------------------------------------------------- runs

  /** A sequential debug-build program: `live` is what the allocator has handed out and
      not been given back, infrastructure objects included. */
  datatype State = State(ring: Ring, live: set<nat>)

  /** A fresh pointer comes out, or a live one goes in. */
  datatype Event = Out(p: nat) | In(p: nat)

  predicate Possible(s: State, e: Event) {
    match e
    case Out(p) => p != 0 && p !in s.live
    case In(p) => p in s.live
  }

  function After(s: State, e: Event): State
    requires s.ring.next < |s.ring.entries|
  {
    match e
    case Out(p) => State(Forget(s.ring, p), s.live + {p})
    case In(p) => State(Record(s.ring, p), s.live - {p})
  }

  /** Recorded pointers are pairwise distinct and none of them is live. */
  predicate Inv(s: State) {
    && s.ring.next < |s.ring.entries| && 0 !in s.live
    && (forall i, j :: 0 <= i < j < |s.ring.entries| && s.ring.entries[i] != 0 ==>
          s.ring.entries[i] != s.ring.entries[j])
    && forall p <- s.live :: p !in s.ring.entries
  }

  predicate IsRun(s: State, events: seq<Event>)
    requires s.ring.next < |s.ring.entries|
    decreases |events|
  {
    events == [] || (Possible(s, events[0]) && IsRun(After(s, events[0]), events[1..]))
  }

  function AfterAll(s: State, events: seq<Event>): (r: State)
    requires s.ring.next < |s.ring.entries|
    ensures r.ring.next < |r.ring.entries|
    decreases |events|
  {
    if events == [] then s else AfterAll(After(s, events[0]), events[1..])
  }

  lemma ForgetHas(r: Ring, p: nat)
    ensures forall x: nat :: x != 0 ==> (x in Forget(r, p).entries <==> x in r.entries && x != p)
  {
    var f := Forget(r, p);
    forall x: nat | x != 0
      ensures x in f.entries <==> x in r.entries && x != p
    {
      if x in r.entries && x != p {
        var i :| 0 <= i < |r.entries| && r.entries[i] == x;
        assert f.entries[i] == x;
      }
    }
  }

  lemma StepKeeps(s: State, e: Event)
    requires Inv(s) && Possible(s, e)
    ensures Inv(After(s, e)) && |After(s, e).ring.entries| == |s.ring.entries|
  {
    match e
    case Out(p) => ForgetHas(s.ring, p);
    case In(p) =>
      var r := Record(s.ring, p);
      forall x: nat | x in r.entries
        ensures x == p || x in s.ring.entries
      {
        var i :| 0 <= i < |r.entries| && r.entries[i] == x;
        assert i == s.ring.next || s.ring.entries[i] == x;
      }
  }

  /** Over every run, no live pointer is ever in the ring, so no legitimate free is
      taken for a double free. */
  lemma {:induction false} NoFalseAlarm(s: State, events: seq<Event>)
    requires Inv(s) && IsRun(s, events)
    ensures Inv(AfterAll(s, events))
    ensures forall p <- AfterAll(s, events).live :: !IsDoubleFree(AfterAll(s, events).ring, p)
    decreases |events|
  {
    if events != [] {
      StepKeeps(s, events[0]);
      NoFalseAlarm(After(s, events[0]), events[1..]);
    }
  }

  function Frees(events: seq<Event>): nat {
    if events == [] then 0 else (if events[0].In? then 1 else 0) + Frees(events[1..])
  }

  predicate HandedOutIn(events: seq<Event>, p: nat) {
    exists i :: 0 <= i < |events| && events[i] == Out(p)
  }

  /** The entry written `age` frees ago. */
  function Entry(r: Ring, age: nat): nat
    requires r.next < |r.entries| && age < |r.entries|
  {
    var i := r.next - 1 - age;
    if i >= 0 then i else i + |r.entries|
  }

  /** `p` was freed `age` frees ago and has not been handed out since. */
  predicate Aged(r: Ring, p: nat, age: nat)
    requires r.next < |r.entries|
  {
    if age < |r.entries| then r.entries[Entry(r, age)] == p else p !in r.entries
  }

  lemma AgeStep(s: State, e: Event, p: nat, age: nat)
    requires Inv(s) && Possible(s, e) && p != 0 && p !in s.live && e != Out(p) && Aged(s.ring, p, age)
    ensures Aged(After(s, e).ring, p, if e.In? then age + 1 else age) && p !in After(s, e).live
  {
    var n := |s.ring.entries|;
    match e
    case Out(q) => ForgetHas(s.ring, q);
    case In(q) =>
      var r := Record(s.ring, q);
      NextIndex(s.ring.next, n);
      if age + 1 < n {
        assert Entry(r, age + 1) == Entry(s.ring, age) != s.ring.next;
      } else {
        assert forall i :: 0 <= i < n ==> r.entries[i] != p;
      }
  }

  lemma NextIndex(i: nat, n: nat)
    requires i < n
    ensures (i + 1) % n == if i + 1 < n then i + 1 else 0
  {
    if i + 1 == n {
      DivModUnique(n, n, 1, 0);
    } else {
      DivModUnique(i + 1, n, 0, i + 1);
    }
  }

  lemma {:induction false} AgeRun(s: State, events: seq<Event>, p: nat, age: nat)
    requires Inv(s) && IsRun(s, events) && p != 0 && p !in s.live && !HandedOutIn(events, p) && Aged(s.ring, p, age)
    ensures Aged(AfterAll(s, events).ring, p, age + Frees(events))
    ensures |AfterAll(s, events).ring.entries| == |s.ring.entries|
    decreases |events|
  {
    if events != [] {
      assert events[0] != Out(p);
      AgeStep(s, events[0], p, age);
      StepKeeps(s, events[0]);
      forall i | 0 <= i < |events[1..]|
        ensures events[1..][i] != Out(p)
      {
        assert events[i + 1] != Out(p);
      }
      AgeRun(After(s, events[0]), events[1..], p, if events[0].In? then age + 1 else age);
    }
  }

  /** A second free of a pointer that has not been handed out again is caught exactly
      when fewer frees than the ring has entries were recorded since the first. */
  lemma DoubleFreeCaughtIff(s: State, p: nat, events: seq<Event>)
    requires Inv(s) && p in s.live && IsRun(After(s, In(p)), events) && !HandedOutIn(events, p)
    ensures IsDoubleFree(AfterAll(After(s, In(p)), events).ring, p) <==> Frees(events) < |s.ring.entries|
  {
    StepKeeps(s, In(p));
    var t := After(s, In(p));
    NextIndex(s.ring.next, |s.ring.entries|);
    assert Entry(t.ring, 0) == s.ring.next;
    AgeRun(t, events, p, 0);
  }

  /** Once handed out again, a pointer is no longer taken for freed. */
  lemma HandedOutIsForgotten(s: State, p: nat)
    requires Inv(s) && Possible(s, Out(p))
    ensures !IsDoubleFree(After(s, Out(p)).ring, p)
  {
    ForgetHas(s.ring, p);
  }
}
