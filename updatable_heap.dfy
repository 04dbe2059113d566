/**
 * The updatable max-heap of vecsim_stl (updatable_max_heap<Priority, Id>): a
 * priority queue holding at most one entry per id. emplace inserts an entry or, when
 * the id is already present, replaces its priority; top and pop give the entry of
 * highest priority, the larger id first on a tie.
 *
 * The abstract state is the map from id to priority. The concrete state is the
 * entries kept in the order they leave the heap.
 */
module UpdatableHeap {
  import opened Wrappers
  import opened Ranges

  datatype Entry = Entry(priority: real, id: nat)

  /** a leaves the heap before b: a higher priority, or the same priority and a larger id. */
  predicate Above(a: Entry, b: Entry) {
    a.priority > b.priority || (a.priority == b.priority && a.id > b.id)
  }

  /** e is the entry top() shows for the contents m. */
  predicate IsTop(m: map<nat, real>, e: Entry) {
    && e.id in m && m[e.id] == e.priority
    && forall k | k in m && k != e.id :: Above(e, Entry(m[k], k))
  }

  // ---------------------------------------------------------------- the abstract heap

  /** At most one entry can be the top. */
  lemma TopUnique(m: map<nat, real>, a: Entry, b: Entry)
    requires IsTop(m, a) && IsTop(m, b)
    ensures a == b
  {
  }

  /** Every non-empty heap has a top. */
  lemma {:induction false} TopExists(m: map<nat, real>) returns (e: Entry)
    requires m != map[]
    ensures IsTop(m, e)
    decreases |m|
  {
    var k :| k in m;
    var rest := m - {k};
    if m.Keys == {k} {
      e := Entry(m[k], k);
    } else {
      assert rest != map[] by {
        var j :| j in m.Keys && j != k;
        assert j in rest;
      }
      assert |rest| < |m| by { assert rest.Keys == m.Keys - {k}; }
      var t := TopExists(rest);
      e := if Above(t, Entry(m[k], k)) then t else Entry(m[k], k);
      forall j | j in m && j != e.id ensures Above(e, Entry(m[j], j)) {
        if j != k && j != t.id {
          assert j in rest;
        }
      }
    }
  }

  /** Two pops in a row come out in order: the second is below the first. */
  lemma PopsDescend(m: map<nat, real>, a: Entry, b: Entry)
    requires IsTop(m, a) && IsTop(m - {a.id}, b)
    ensures Above(a, b)
  {
  }

  /** An entry below every other one is never the top while anything else is left. */
  lemma {:induction false} LowestIsLast(m: map<nat, real>, low: nat, e: Entry)
    requires low in m && |m| >= 2 && IsTop(m, e)
    requires forall k | k in m && k != low :: Above(Entry(m[k], k), Entry(m[low], low))
    ensures e.id != low
  {
    var others := m.Keys - {low};
    assert |others| >= 1 by { assert |m.Keys| == |m|; }
    var k :| k in others;
  }

  // ---------------------------------------------------------------- the concrete order

  /** Entries in the order they leave the heap. */
  ghost predicate Descending(s: seq<Entry>) {
    forall i, j :: 0 <= i < j < |s| ==> Above(s[i], s[j])
  }

  ghost predicate UniqueIds(s: seq<Entry>) {
    forall i, j :: 0 <= i < j < |s| ==> s[i].id != s[j].id
  }

  ghost function Ids(s: seq<Entry>): set<nat> {
    set i | 0 <= i < |s| :: s[i].id
  }

  lemma {:induction false} IdsCard(s: seq<Entry>)
    requires UniqueIds(s)
    ensures |Ids(s)| == |s|
  {
    if s != [] {
      var t := s[1..];
      assert UniqueIds(t);
      IdsCard(t);
      IdsCons(s);
      assert s[0].id !in Ids(t) by {
        forall i | 0 <= i < |t| ensures t[i].id != s[0].id {
          assert t[i] == s[i + 1];
        }
      }
    }
  }

  class UpdatableMaxHeap {
    /** The entries, in the order pop() removes them. */
    var elems: seq<Entry>
    /** The public view: the priority of every id present. */
    ghost var Contents: map<nat, real>

    ghost predicate Valid()
      reads this
    {
      && Descending(elems)
      && UniqueIds(elems)
      && Contents == ToMap(elems)
    }

    constructor ()
      ensures Valid() && Contents == map[]
    {
      elems := [];
      Contents := map[];
    }

    /** size(): the number of distinct ids present. */
    method Size() returns (n: nat)
      requires Valid()
      ensures n == |Contents|
    {
      Canon(elems, Contents);
      IdsCard(elems);
      assert |Contents| == |Contents.Keys|;
      n := |elems|;
    }

    /** empty() */
    method IsEmpty() returns (b: bool)
      requires Valid()
      ensures b <==> Contents == map[]
    {
      Canon(elems, Contents);
      b := elems == [];
      if !b {
        assert elems[0].id in Contents;
      }
    }

    /** top(): the entry that leaves next; on an empty heap there is none, and no failure. */
    method Top() returns (t: Option<Entry>)
      requires Valid()
      ensures t.None? <==> Contents == map[]
      ensures t.Some? ==> IsTop(Contents, t.value)
    {
      Canon(elems, Contents);
      if elems == [] {
        t := None;
      } else {
        HeadIsTop(elems, Contents);
        t := Some(elems[0]);
      }
    }

    /** emplace(priority, id): insert the entry, or replace the priority the id has. */
    method Emplace(priority: real, id: nat)
      requires Valid()
      modifies this
      ensures Valid()
      ensures Contents == old(Contents)[id := priority]
      ensures |Contents| == if id in old(Contents) then old(|Contents|) else old(|Contents|) + 1
    {
      // Take out the entry the id has now, if any, then put the new one where it belongs.
      var i := IndexOfId(elems, id);
      var rest := if i < |elems| then RemoveAt(elems, i) else elems;
      var e := Entry(priority, id);
      var j := InsertionPoint(rest, e);
      EmplaceKeepsInvariant(elems, Contents, i, e, j);
      elems := InsertAt(rest, j, e);
      Contents := Contents[id := priority];
    }

    /** pop(): remove the top entry. The entry removed is also returned. */
    method Pop() returns (e: Entry)
      requires Valid() && Contents != map[]
      modifies this
      ensures Valid()
      ensures IsTop(old(Contents), e)
      ensures Contents == old(Contents) - {e.id}
      ensures |Contents| == old(|Contents|) - 1
    {
      Canon(elems, Contents);
      HeadIsTop(elems, Contents);
      e := elems[0];
      RemoveKeepsOrder(elems, 0);
      RemoveKeepsContents(elems, 0, Contents);
      MinusOneCard(Contents, e.id);
      elems := RemoveAt(elems, 0);
      Contents := Contents - {e.id};
      Canon(elems, Contents);
    }
  }

  /** The first of the entries in leaving order is the top of what they represent. */
  lemma HeadIsTop(s: seq<Entry>, m: map<nat, real>)
    requires Descending(s) && UniqueIds(s) && Represents(s, m) && s != []
    ensures IsTop(m, s[0])
  {
    assert s[0].id in Ids(s);
    forall k | k in m && k != s[0].id
      ensures Above(s[0], Entry(m[k], k))
    {
      var i :| 0 <= i < |s| && s[i].id == k;
    }
  }

  lemma MinusOneCard(m: map<nat, real>, k: nat)
    requires k in m
    ensures |m - {k}| == |m| - 1
  {
    assert (m - {k}).Keys == m.Keys - {k};
  }

  // ---------------------------------------------------------------- helpers for Emplace

  /** The position of the entry with the given id, or |s| when there is none. */
  method IndexOfId(s: seq<Entry>, id: nat) returns (i: nat)
    ensures i <= |s|
    ensures forall k :: 0 <= k < i ==> s[k].id != id
    ensures i < |s| ==> s[i].id == id
  {
    i := 0;
    while i < |s| && s[i].id != id
      invariant i <= |s|
      invariant forall k :: 0 <= k < i ==> s[k].id != id
    {
      i := i + 1;
    }
  }

  /** The first position whose entry does not leave the heap before e. */
  method InsertionPoint(s: seq<Entry>, e: Entry) returns (j: nat)
    ensures j <= |s|
    ensures forall k :: 0 <= k < j ==> Above(s[k], e)
    ensures j < |s| ==> !Above(s[j], e)
  {
    j := 0;
    while j < |s| && Above(s[j], e)
      invariant j <= |s|
      invariant forall k :: 0 <= k < j ==> Above(s[k], e)
    {
      j := j + 1;
    }
  }

  /** The map an entry sequence stands for. */
  ghost function ToMap(s: seq<Entry>): map<nat, real> {
    if s == [] then map[] else ToMap(s[1..])[s[0].id := s[0].priority]
  }

  /** For entries with distinct ids, Represents pins the map down: it is ToMap. */
  lemma Canon(s: seq<Entry>, m: map<nat, real>)
    requires UniqueIds(s)
    ensures Represents(s, m) <==> m == ToMap(s)
  {
    ToMapRepresents(s);
    if Represents(s, m) {
      var t := ToMap(s);
      forall k | k in m ensures m[k] == t[k] {
        var i :| 0 <= i < |s| && s[i].id == k;
      }
    }
  }

  lemma {:induction false} ToMapRepresents(s: seq<Entry>)
    requires UniqueIds(s)
    ensures Represents(s, ToMap(s))
  {
    if s != [] {
      var t := s[1..];
      assert UniqueIds(t) by {
        forall a, b | 0 <= a < b < |t| ensures t[a].id != t[b].id {
          assert t[a] == s[a + 1] && t[b] == s[b + 1];
        }
      }
      ToMapRepresents(t);
      IdsCons(s);
      forall i | 0 <= i < |s| ensures ToMap(s)[s[i].id] == s[i].priority {
        if i > 0 {
          assert s[i] == t[i - 1];
        }
      }
    }
  }

  lemma IdsCons(s: seq<Entry>)
    requires s != []
    ensures Ids(s) == {s[0].id} + Ids(s[1..])
  {
    var t := s[1..];
    forall x | x in Ids(s) ensures x in {s[0].id} + Ids(t) {
      var i :| 0 <= i < |s| && s[i].id == x;
      if i > 0 { assert t[i - 1] == s[i]; }
    }
    forall x | x in Ids(t) ensures x in Ids(s) {
      var i :| 0 <= i < |t| && t[i].id == x;
      assert s[i + 1] == t[i];
    }
  }

  /** s holds exactly the entries of m. */
  ghost predicate Represents(s: seq<Entry>, m: map<nat, real>) {
    && m.Keys == Ids(s)
    && forall i :: 0 <= i < |s| ==> m[s[i].id] == s[i].priority
  }

  function RemoveAt(s: seq<Entry>, i: nat): (r: seq<Entry>)
    requires i < |s|
    ensures |r| == |s| - 1
    ensures forall k :: 0 <= k < |r| ==> r[k] == if k < i then s[k] else s[k + 1]
  {
    s[..i] + s[i + 1..]
  }

  function InsertAt(s: seq<Entry>, j: nat, e: Entry): (r: seq<Entry>)
    requires j <= |s|
    ensures |r| == |s| + 1
    ensures forall k :: 0 <= k < |r| ==> r[k] == if k < j then s[k] else if k == j then e else s[k - 1]
  {
    s[..j] + [e] + s[j..]
  }

  /** With the id's old entry taken out, rest holds the other entries, still in order. */
  lemma TakeOutKeepsInvariant(s: seq<Entry>, m: map<nat, real>, i: nat, id: nat)
    requires Descending(s) && UniqueIds(s) && Represents(s, m)
    requires i <= |s| && (forall k :: 0 <= k < i ==> s[k].id != id) && (i < |s| ==> s[i].id == id)
    ensures var rest := if i < |s| then RemoveAt(s, i) else s;
      Descending(rest) && UniqueIds(rest) && Represents(rest, m - {id})
  {
    if i < |s| {
      RemoveKeepsOrder(s, i);
      RemoveKeepsContents(s, i, m);
    } else {
      assert id !in Ids(s);
      assert m - {id} == m;
    }
  }

  /** Taking out the id's entry and putting the new one at its place keeps the heap's invariant. */
  lemma EmplaceKeepsInvariant(s: seq<Entry>, m: map<nat, real>, i: nat, e: Entry, j: nat)
    requires Descending(s) && UniqueIds(s) && m == ToMap(s)
    requires i <= |s| && (forall k :: 0 <= k < i ==> s[k].id != e.id) && (i < |s| ==> s[i].id == e.id)
    requires var rest := if i < |s| then RemoveAt(s, i) else s;
      && j <= |rest| && (forall k :: 0 <= k < j ==> Above(rest[k], e)) && (j < |rest| ==> !Above(rest[j], e))
    ensures var r := InsertAt(if i < |s| then RemoveAt(s, i) else s, j, e);
      && Descending(r) && UniqueIds(r) && ToMap(r) == m[e.id := e.priority]
    ensures |m[e.id := e.priority]| == if e.id in m then |m| else |m| + 1
  {
    Canon(s, m);
    var rest := if i < |s| then RemoveAt(s, i) else s;
    TakeOutKeepsInvariant(s, m, i, e.id);
    PutBackKeepsInvariant(rest, m, e, j);
    Canon(InsertAt(rest, j, e), m[e.id := e.priority]);
    UpdateCard(m, e.id, e.priority);
  }

  lemma UpdateCard(m: map<nat, real>, k: nat, v: real)
    ensures |m[k := v]| == if k in m then |m| else |m| + 1
  {
    if k in m {
      assert m[k := v].Keys == m.Keys;
    } else {
      assert m[k := v].Keys == m.Keys + {k};
    }
    assert |m[k := v]| == |m[k := v].Keys| && |m| == |m.Keys|;
  }

  /** Inserting the new entry at its place keeps the heap's invariant. */
  lemma PutBackKeepsInvariant(rest: seq<Entry>, m: map<nat, real>, e: Entry, j: nat)
    requires Descending(rest) && UniqueIds(rest) && Represents(rest, m - {e.id})
    requires j <= |rest| && (forall k :: 0 <= k < j ==> Above(rest[k], e)) && (j < |rest| ==> !Above(rest[j], e))
    ensures Descending(InsertAt(rest, j, e)) && UniqueIds(InsertAt(rest, j, e))
    ensures Represents(InsertAt(rest, j, e), m[e.id := e.priority])
  {
    InsertKeepsOrder(rest, e, j);
    InsertKeepsContents(rest, e, j, m - {e.id});
    assert (m - {e.id})[e.id := e.priority] == m[e.id := e.priority];
  }

  lemma RemoveKeepsOrder(s: seq<Entry>, i: nat)
    requires i < |s| && Descending(s) && UniqueIds(s)
    ensures Descending(RemoveAt(s, i)) && UniqueIds(RemoveAt(s, i))
  {
    var r := RemoveAt(s, i);
    forall a, b | 0 <= a < b < |r| ensures Above(r[a], r[b]) && r[a].id != r[b].id {
      var a', b' := if a < i then a else a + 1, if b < i then b else b + 1;
      assert r[a] == s[a'] && r[b] == s[b'];
    }
  }

  lemma RemoveKeepsContents(s: seq<Entry>, i: nat, m: map<nat, real>)
    requires i < |s| && UniqueIds(s) && Represents(s, m)
    ensures Represents(RemoveAt(s, i), m - {s[i].id})
  {
    var r := RemoveAt(s, i);
    var id := s[i].id;
    RemoveIds(s, i);
    forall k | 0 <= k < |r| ensures (m - {id})[r[k].id] == r[k].priority {
      var k' := if k < i then k else k + 1;
      assert r[k] == s[k'];
    }
  }

  lemma RemoveIds(s: seq<Entry>, i: nat)
    requires i < |s| && UniqueIds(s)
    ensures Ids(RemoveAt(s, i)) == Ids(s) - {s[i].id}
  {
    var r := RemoveAt(s, i);
    var id := s[i].id;
    forall x | x in Ids(s) && x != id ensures x in Ids(r) {
      var k :| 0 <= k < |s| && s[k].id == x;
      if k < i { assert r[k] == s[k]; } else { assert r[k - 1] == s[k]; }
    }
    forall x | x in Ids(r) ensures x in Ids(s) && x != id {
      var k :| 0 <= k < |r| && r[k].id == x;
      var k' := if k < i then k else k + 1;
      assert r[k] == s[k'];
    }
  }

  lemma InsertKeepsOrder(rest: seq<Entry>, e: Entry, j: nat)
    requires Descending(rest) && UniqueIds(rest) && e.id !in Ids(rest)
    requires j <= |rest|
    requires forall k :: 0 <= k < j ==> Above(rest[k], e)
    requires j < |rest| ==> !Above(rest[j], e)
    ensures Descending(InsertAt(rest, j, e)) && UniqueIds(InsertAt(rest, j, e))
  {
    var s := InsertAt(rest, j, e);
    forall k | j <= k < |rest| ensures Above(e, rest[k]) {
      assert rest[j].id in Ids(rest);
    }
    forall a, b | 0 <= a < b < |s| ensures Above(s[a], s[b]) && s[a].id != s[b].id {
      if a != j && b != j {
        var a', b' := if a < j then a else a - 1, if b < j then b else b - 1;
        assert s[a] == rest[a'] && s[b] == rest[b'];
      } else if a == j {
        assert s[b] == rest[b - 1];
        assert rest[b - 1].id in Ids(rest);
      } else {
        assert s[a] == rest[a];
        assert rest[a].id in Ids(rest);
      }
    }
  }

  lemma InsertKeepsContents(rest: seq<Entry>, e: Entry, j: nat, m: map<nat, real>)
    requires j <= |rest| && Represents(rest, m) && e.id !in m
    ensures Represents(InsertAt(rest, j, e), m[e.id := e.priority])
  {
    var s := InsertAt(rest, j, e);
    forall x | x in Ids(rest) ensures x in Ids(s) {
      var k :| 0 <= k < |rest| && rest[k].id == x;
      if k < j { assert s[k] == rest[k]; } else { assert s[k + 1] == rest[k]; }
    }
    forall x | x in Ids(s) ensures x in Ids(rest) + {e.id} {
      var k :| 0 <= k < |s| && s[k].id == x;
      if k < j { assert s[k] == rest[k]; } else if k > j { assert s[k] == rest[k - 1]; }
    }
    assert s[j] == e;
    forall k | 0 <= k < |s| ensures m[e.id := e.priority][s[k].id] == s[k].priority {
      if k < j { assert s[k] == rest[k]; } else if k > j { assert s[k] == rest[k - 1]; }
    }
  }

  // ---------------------------------------------------------------- draining

  /** Pop until empty, as the pop loops of the tests do: every entry comes out once, in order. */
  method DrainAll(h: UpdatableMaxHeap) returns (popped: seq<Entry>)
    requires h.Valid()
    modifies h
    ensures h.Valid() && h.Contents == map[]
    ensures Descending(popped) && UniqueIds(popped)
    ensures |popped| == |old(h.Contents)|
    ensures Represents(popped, old(h.Contents))
  {
    popped := [];
    ghost var all := h.Contents;
    assert Ids(popped) == {};
    var empty := h.IsEmpty();
    while !empty
      invariant h.Valid()
      invariant empty <==> h.Contents == map[]
      invariant Drained(all, popped, h.Contents)
      decreases |h.Contents|
    {
      ghost var before := h.Contents;
      var e := h.Pop();
      DrainStep(all, popped, before, e);
      popped := popped + [e];
      empty := h.IsEmpty();
    }
    DrainedAll(all, popped);
  }

  /** The invariant of the drain loop: popped came out of all in order, rest is what is left. */
  ghost predicate Drained(all: map<nat, real>, popped: seq<Entry>, rest: map<nat, real>) {
    && Descending(popped) && UniqueIds(popped)
    && rest == all - Ids(popped)
    && (forall i :: 0 <= i < |popped| ==> popped[i].id in all && all[popped[i].id] == popped[i].priority)
    && (popped != [] ==> forall k | k in rest :: Above(popped[|popped| - 1], Entry(rest[k], k)))
  }

  lemma DrainStep(all: map<nat, real>, popped: seq<Entry>, rest: map<nat, real>, e: Entry)
    requires Drained(all, popped, rest) && IsTop(rest, e)
    ensures Drained(all, popped + [e], rest - {e.id})
  {
    PoppedInOrder(popped, rest, e);
    IdsAppend(popped, e);
    MinusStep(all, Ids(popped), e.id);
    MinusLookup(all, Ids(popped), e.id);
    var s := popped + [e];
    assert forall i :: 0 <= i < |s| ==> s[i] == if i < |popped| then popped[i] else e;
  }

  lemma DrainedAll(all: map<nat, real>, popped: seq<Entry>)
    requires Drained(all, popped, map[])
    ensures |popped| == |all| && Represents(popped, all)
  {
    IdsCard(popped);
    DrainedRepresents(popped, all);
    assert all.Keys == Ids(popped);
  }

  lemma PoppedInOrder(popped: seq<Entry>, m: map<nat, real>, e: Entry)
    requires Descending(popped) && UniqueIds(popped) && IsTop(m, e)
    requires forall i :: 0 <= i < |popped| ==> popped[i].id !in m
    requires popped != [] ==> forall k | k in m :: Above(popped[|popped| - 1], Entry(m[k], k))
    ensures Descending(popped + [e]) && UniqueIds(popped + [e])
  {
    var s := popped + [e];
    forall a, b | 0 <= a < b < |s| ensures Above(s[a], s[b]) && s[a].id != s[b].id {
      if b == |popped| {
        assert s[a] == popped[a] && s[b] == e;
        assert Above(popped[|popped| - 1], e);
        assert a == |popped| - 1 || Above(popped[a], popped[|popped| - 1]);
      } else {
        assert s[a] == popped[a] && s[b] == popped[b];
      }
    }
  }

  lemma MinusStep(m: map<nat, real>, a: set<nat>, x: nat)
    ensures (m - a) - {x} == m - (a + {x})
  {
  }

  lemma MinusLookup(m: map<nat, real>, a: set<nat>, x: nat)
    requires x in m - a
    ensures x in m && (m - a)[x] == m[x]
  {
  }

  lemma IdsAppend(s: seq<Entry>, e: Entry)
    ensures Ids(s + [e]) == Ids(s) + {e.id}
  {
    var t := s + [e];
    forall x | x in Ids(s) ensures x in Ids(t) {
      var i :| 0 <= i < |s| && s[i].id == x;
      assert t[i] == s[i];
    }
    forall x | x in Ids(t) ensures x in Ids(s) + {e.id} {
      var i :| 0 <= i < |t| && t[i].id == x;
      if i < |s| { assert t[i] == s[i]; }
    }
    assert t[|s|] == e;
  }

  lemma DrainedRepresents(s: seq<Entry>, all: map<nat, real>)
    requires all - Ids(s) == map[]
    requires forall i :: 0 <= i < |s| ==> s[i].id in all && all[s[i].id] == s[i].priority
    ensures Represents(s, all)
  {
    forall k | k in all ensures k in Ids(s) {
      assert k in Ids(s) || k in all - Ids(s);
    }
  }

  // ---------------------------------------------------------------- the recorded runs

  /** es is the sequence of entries pop() yields, top first, until m is empty. */
  ghost predicate PopOrder(m: map<nat, real>, es: seq<Entry>)
    decreases |es|
  {
    if es == [] then m == map[] else IsTop(m, es[0]) && PopOrder(m - {es[0].id}, es[1..])
  }

  lemma {:induction false} PopOrderSize(m: map<nat, real>, es: seq<Entry>)
    requires PopOrder(m, es)
    ensures |m| == |es|
    decreases |es|
  {
    if es != [] {
      PopOrderSize(m - {es[0].id}, es[1..]);
    }
  }

  /** Every heap has exactly one pop order: the drain does not depend on how the heap was built. */
  lemma {:induction false} PopOrderUnique(m: map<nat, real>, es: seq<Entry>, fs: seq<Entry>)
    requires PopOrder(m, es) && PopOrder(m, fs)
    ensures es == fs
    decreases |es|
  {
    PopOrderSize(m, es);
    PopOrderSize(m, fs);
    if es != [] {
      TopUnique(m, es[0], fs[0]);
      PopOrderUnique(m - {es[0].id}, es[1..], fs[1..]);
    }
  }

  /**
   * The pop loops of the tests: until the heap is empty, read size(), top() and empty(),
   * then pop(). The sizes count down by one, the tops are the pop order, and empty() is
   * false in every round.
   */
  method PopAll(h: UpdatableMaxHeap, ghost expected: seq<Entry>) returns (sizes: seq<nat>, tops: seq<Entry>, empties: seq<bool>)
    requires h.Valid() && PopOrder(h.Contents, expected)
    modifies h
    ensures h.Valid() && h.Contents == map[]
    ensures tops == expected && |sizes| == |expected| && |empties| == |expected|
    ensures forall i :: 0 <= i < |sizes| ==> sizes[i] == |expected| - i
    ensures forall i :: 0 <= i < |empties| ==> !empties[i]
  {
    sizes, tops, empties := [], [], [];
    PopOrderSize(h.Contents, expected);
    var empty := h.IsEmpty();
    while !empty
      invariant h.Valid() && (empty <==> h.Contents == map[])
      invariant Rounds(expected, sizes, tops, empties)
      invariant PopOrder(h.Contents, expected[|tops|..])
      decreases |expected| - |tops|
    {
      ghost var rest := expected[|tops|..];
      var n, t, e := SizeTopPop(h, rest);
      RoundStep(expected, sizes, tops, empties, n, t, e);
      assert rest[1..] == expected[|tops| + 1..];
      sizes, tops, empties := sizes + [n], tops + [t], empties + [e];
      empty := h.IsEmpty();
    }
    PopOrderSize(h.Contents, expected[|tops|..]);
  }

  /** The rounds so far: sizes counting down from |expected|, tops a prefix of expected, empty() false. */
  ghost predicate Rounds(expected: seq<Entry>, sizes: seq<nat>, tops: seq<Entry>, empties: seq<bool>) {
    && |tops| == |sizes| == |empties| <= |expected|
    && tops == expected[..|tops|]
    && (forall i :: 0 <= i < |sizes| ==> sizes[i] == |expected| - i)
    && (forall i :: 0 <= i < |empties| ==> !empties[i])
  }

  lemma RoundStep(expected: seq<Entry>, sizes: seq<nat>, tops: seq<Entry>, empties: seq<bool>, n: nat, t: Entry, e: bool)
    requires Rounds(expected, sizes, tops, empties) && |tops| < |expected|
    requires n == |expected[|tops|..]| && t == expected[|tops|..][0] && !e
    ensures Rounds(expected, sizes + [n], tops + [t], empties + [e])
  {
    assert tops + [t] == expected[..|tops| + 1];
  }

  /** One round of those loops. */
  method SizeTopPop(h: UpdatableMaxHeap, ghost rest: seq<Entry>) returns (n: nat, t: Entry, empty: bool)
    requires h.Valid() && rest != [] && PopOrder(h.Contents, rest)
    modifies h
    ensures h.Valid() && PopOrder(h.Contents, rest[1..])
    ensures n == |rest| && t == rest[0] && !empty
  {
    PopOrderSize(h.Contents, rest);
    n := h.Size();
    var top := h.Top();
    TopUnique(h.Contents, top.value, rest[0]);
    t := top.value;
    empty := h.IsEmpty();
    var _ := h.Pop();
  }

  /** A new heap is empty, and asking it for its top is not a failure. */
  method InitialRun() returns (size: nat, empty: bool, top: Option<Entry>)
    ensures size == 0 && empty && top == None
  {
    var h := new UpdatableMaxHeap();
    size := h.Size();
    empty := h.IsEmpty();
    top := h.Top();
  }

  /** The priorities of the tests: pi, e, sqrt(2) and -sqrt(2)*e, truncated to eight decimals. */
  const First: real := 3.14159265
  const Second: real := 2.71828182
  const Third: real := 1.41421356
  const Fourth: real := -3.84423102

  lemma DistinctOrder()
    ensures PopOrder(map[16 := Third, 93 := First, 99 := Second, 46 := Fourth],
                     [Entry(First, 93), Entry(Second, 99), Entry(Third, 16), Entry(Fourth, 46)])
  {
    var m := map[16 := Third, 93 := First, 99 := Second, 46 := Fourth];
    var es := [Entry(First, 93), Entry(Second, 99), Entry(Third, 16), Entry(Fourth, 46)];
    assert (m - {93}).Keys == {16, 99, 46};
    assert (m - {93} - {99}).Keys == {16, 46};
    assert (m - {93} - {99} - {16}).Keys == {46};
    assert PopOrder(m - {93} - {99} - {16} - {46}, es[4..]);
    assert PopOrder(m - {93} - {99} - {16}, es[3..]);
    assert PopOrder(m - {93} - {99}, es[2..]);
    assert PopOrder(m - {93}, es[1..]);
  }

  /** The four entries of the first run, emplaced out of order. */
  method DistinctEntries() returns (h: UpdatableMaxHeap)
    ensures fresh(h) && h.Valid()
    ensures h.Contents == map[16 := Third, 93 := First, 99 := Second, 46 := Fourth]
  {
    h := new UpdatableMaxHeap();
    h.Emplace(Third, 16);
    h.Emplace(First, 93);
    h.Emplace(Second, 99);
    h.Emplace(Fourth, 46);
  }

  /** Four entries with distinct priorities leave in priority order, whatever order they came in. */
  method DistinctPrioritiesRun() returns (sizes: seq<nat>, tops: seq<Entry>, empties: seq<bool>, finalSize: nat, finalEmpty: bool)
    ensures sizes == [4, 3, 2, 1]
    ensures tops == [Entry(First, 93), Entry(Second, 99), Entry(Third, 16), Entry(Fourth, 46)]
    ensures empties == [false, false, false, false]
    ensures finalSize == 0 && finalEmpty
  {
    var h := DistinctEntries();
    DistinctOrder();
    sizes, tops, empties := PopAll(h, [Entry(First, 93), Entry(Second, 99), Entry(Third, 16), Entry(Fourth, 46)]);
    CountsDownFromFour(sizes, empties);
    finalSize := h.Size();
    finalEmpty := h.IsEmpty();
  }

  lemma CountsDownFromFour(sizes: seq<nat>, empties: seq<bool>)
    requires |sizes| == 4 && forall i :: 0 <= i < |sizes| ==> sizes[i] == 4 - i
    requires |empties| == 4 && forall i :: 0 <= i < |empties| ==> !empties[i]
    ensures sizes == [4, 3, 2, 1] && empties == [false, false, false, false]
  {
  }

  lemma TiedOrder()
    ensures IsTop(map[2 := Second, 1 := First, 4 := Second, 3 := Second], Entry(First, 1))
    ensures map[2 := Second, 1 := First, 4 := Second, 3 := Second][1 := Third]
         == map[2 := Second, 1 := Third, 4 := Second, 3 := Second]
    ensures PopOrder(map[2 := Second, 1 := Third, 4 := Second, 3 := Second],
                     [Entry(Second, 4), Entry(Second, 3), Entry(Second, 2), Entry(Third, 1)])
  {
    var u := map[2 := Second, 1 := Third, 4 := Second, 3 := Second];
    var es := [Entry(Second, 4), Entry(Second, 3), Entry(Second, 2), Entry(Third, 1)];
    assert (u - {4}).Keys == {1, 2, 3};
    assert (u - {4} - {3}).Keys == {1, 2};
    assert (u - {4} - {3} - {2}).Keys == {1};
    assert PopOrder(u - {4} - {3} - {2} - {1}, es[4..]);
    assert PopOrder(u - {4} - {3} - {2}, es[3..]);
    assert PopOrder(u - {4} - {3}, es[2..]);
    assert PopOrder(u - {4}, es[1..]);
  }

  /** The four entries of the tie-break run: three share a priority. */
  method TiedEntries() returns (h: UpdatableMaxHeap)
    ensures fresh(h) && h.Valid()
    ensures h.Contents == map[2 := Second, 1 := First, 4 := Second, 3 := Second]
  {
    h := new UpdatableMaxHeap();
    h.Emplace(Second, 2);
    h.Emplace(First, 1);
    h.Emplace(Second, 4);
    h.Emplace(Second, 3);
  }

  /**
   * Equal priorities: the larger id leaves first, an update replaces the priority and keeps
   * the size, and every pop removes exactly one entry.
   */
  method TieBreakRun() returns (firstSize: nat, firstEmpty: bool, firstTop: Entry, updatedSize: nat, updatedEmpty: bool,
                                sizes: seq<nat>, tops: seq<Entry>, empties: seq<bool>, finalSize: nat, finalEmpty: bool)
    ensures firstSize == 4 && !firstEmpty && firstTop == Entry(First, 1)
    ensures updatedSize == 4 && !updatedEmpty
    ensures sizes == [4, 3, 2, 1]
    ensures tops == [Entry(Second, 4), Entry(Second, 3), Entry(Second, 2), Entry(Third, 1)]
    ensures empties == [false, false, false, false]
    ensures finalSize == 0 && finalEmpty
  {
    var h := TiedEntries();
    TiedOrder();
    firstSize := h.Size();
    firstEmpty := h.IsEmpty();
    var t := h.Top();
    TopUnique(h.Contents, t.value, Entry(First, 1));
    firstTop := t.value;
    h.Emplace(Third, 1);
    PopOrderSize(h.Contents, [Entry(Second, 4), Entry(Second, 3), Entry(Second, 2), Entry(Third, 1)]);
    updatedSize := h.Size();
    updatedEmpty := h.IsEmpty();
    sizes, tops, empties := PopAll(h, [Entry(Second, 4), Entry(Second, 3), Entry(Second, 2), Entry(Third, 1)]);
    CountsDownFromFour(sizes, empties);
    finalSize := h.Size();
    finalEmpty := h.IsEmpty();
  }

  /** emplace(p, i) for i = 0 .. n-1 on an empty heap. */
  method FillRange(h: UpdatableMaxHeap, p: real, n: nat)
    requires h.Valid() && h.Contents == map[]
    modifies h
    ensures h.Valid() && Filled(h.Contents, p, n)
  {
    var i := 0;
    while i < n
      invariant i <= n
      invariant h.Valid() && Filled(h.Contents, p, i)
    {
      FillStep(h, p, i);
      i := i + 1;
    }
  }

  /** Ids 0 .. n-1 are present, all at priority p. */
  ghost predicate Filled(m: map<nat, real>, p: real, n: nat) {
    m.Keys == Range(n) && forall k | k in m :: m[k] == p
  }

  method FillStep(h: UpdatableMaxHeap, p: real, i: nat)
    requires h.Valid() && Filled(h.Contents, p, i)
    modifies h
    ensures h.Valid() && Filled(h.Contents, p, i + 1)
  {
    h.Emplace(p, i);
    assert h.Contents.Keys == Range(i) + {i};
  }

  /** Pop for as long as more than one entry is left; the entry below all others is the one left. */
  method PopDownToOne(h: UpdatableMaxHeap, low: nat)
    requires h.Valid() && low in h.Contents
    requires forall k | k in h.Contents && k != low :: Above(Entry(h.Contents[k], k), Entry(h.Contents[low], low))
    modifies h
    ensures h.Valid() && h.Contents == map[low := old(h.Contents)[low]]
  {
    ghost var p := h.Contents[low];
    var n := h.Size();
    while n > 1
      invariant h.Valid() && low in h.Contents && h.Contents[low] == p && n == |h.Contents|
      invariant forall k | k in h.Contents && k != low :: Above(Entry(h.Contents[k], k), Entry(p, low))
      decreases n
    {
      ghost var before := h.Contents;
      var e := h.Pop();
      LowestIsLast(before, low, e);
      n := h.Size();
    }
    assert h.Contents.Keys == {low} by {
      assert |h.Contents.Keys - {low}| == 0;
    }
  }

  /** Ids 0 .. 10 at the second priority, bounded by 42 below and 46 above. */
  method BoundedEntries() returns (h: UpdatableMaxHeap)
    ensures fresh(h) && h.Valid()
    ensures h.Contents.Keys == Range(11) + {42, 46} && |h.Contents| == 13
    ensures forall k | k in h.Contents :: h.Contents[k] == if k == 42 then Third else if k == 46 then First else Second
  {
    h := new UpdatableMaxHeap();
    var n := 11;
    FillRange(h, Second, n);
    ghost var filled := h.Contents;
    h.Emplace(Third, 42);
    h.Emplace(First, 46);
    Bounded(filled, n);
  }

  /** The filled range with 42 set below it and 46 above it. */
  lemma Bounded(m: map<nat, real>, n: nat)
    requires Filled(m, Second, n) && n <= 42
    ensures var u := m[42 := Third][46 := First];
      && u.Keys == Range(n) + {42, 46} && |u| == n + 2
      && forall k | k in u :: u[k] == if k == 42 then Third else if k == 46 then First else Second
  {
    RangeCard(n);
    var u := m[42 := Third][46 := First];
    assert u.Keys == Range(n) + {42, 46};
    assert |u| == |u.Keys|;
  }

  /** An entry alone in the heap is its top. */
  lemma SingleTop(m: map<nat, real>, k: nat)
    requires m.Keys == {k}
    ensures IsTop(m, Entry(m[k], k))
  {
  }

  /** Every priority of the run is above -sqrt(2). */
  lemma BelowAll(m: map<nat, real>)
    requires forall k | k in m :: m[k] == if k == 42 then Third else if k == 46 then First else Second
    ensures var u := m[10 := -Third];
      forall k | k in u && k != 10 :: Above(Entry(u[k], k), Entry(u[10], 10))
  {
  }

  /** The bounded entries with id 10 then updated below all others. */
  method UpdatedLowest() returns (h: UpdatableMaxHeap, size: nat, updatedSize: nat)
    ensures fresh(h) && h.Valid() && size == 13 && updatedSize == 13
    ensures 10 in h.Contents && h.Contents[10] == -Third
    ensures forall k | k in h.Contents && k != 10 :: Above(Entry(h.Contents[k], k), Entry(h.Contents[10], 10))
  {
    h := BoundedEntries();
    size := h.Size();
    RangeCard(11);
    assert 10 in h.Contents;
    BelowAll(h.Contents);
    h.Emplace(-Third, 10);
    updatedSize := h.Size();
  }

  /** The checks on a heap holding one entry: size 1, not empty, that entry on top; then empty after pop(). */
  method LastOne(h: UpdatableMaxHeap, low: nat, ghost p: real)
      returns (lastSize: nat, lastEmpty: bool, lastTop: Entry, finalSize: nat, finalEmpty: bool)
    requires h.Valid() && h.Contents == map[low := p]
    modifies h
    ensures lastSize == 1 && !lastEmpty && lastTop == Entry(p, low)
    ensures finalSize == 0 && finalEmpty
  {
    lastSize := h.Size();
    lastEmpty := h.IsEmpty();
    var t := h.Top();
    SingleTop(h.Contents, low);
    TopUnique(h.Contents, t.value, Entry(p, low));
    lastTop := t.value;
    var _ := h.Pop();
    finalSize := h.Size();
    finalEmpty := h.IsEmpty();
  }

  /**
   * Among many entries of equal priority, the one updated to the lowest priority is the
   * last to leave.
   */
  method LowestLastRun() returns (size: nat, updatedSize: nat, lastSize: nat, lastEmpty: bool, lastTop: Entry,
                                  finalSize: nat, finalEmpty: bool)
    ensures size == 13 && updatedSize == 13
    ensures lastSize == 1 && !lastEmpty && lastTop == Entry(-Third, 10)
    ensures finalSize == 0 && finalEmpty
  {
    var h;
    h, size, updatedSize := UpdatedLowest();
    PopDownToOne(h, 10);
    lastSize, lastEmpty, lastTop, finalSize, finalEmpty := LastOne(h, 10, -Third);
  }
}
