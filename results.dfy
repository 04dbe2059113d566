/**
 * The results containers and the query reply with its iterator.
 *
 * A results container collects (id, score) pairs while a query runs and hands them over
 * once, as the reply's results. The default container keeps every pair it was given; the
 * unique container keeps one pair per id, with the score given last. A reply iterator is
 * a cursor over a reply's results that can be reset, and freeing it leaves the reply alone.
 */
module ResultsContainers {
  import opened Wrappers
  import opened Ranges

  datatype QueryResult = QueryResult(id: nat, score: real)

  // ---------------------------------------------------------------- the default container

  class DefaultResultsContainer {
    /** Every pair emplaced so far, in order. */
    var results: seq<QueryResult>

    constructor ()
      ensures results == []
    {
      results := [];
    }

    method Emplace(id: nat, score: real)
      modifies this
      ensures results == old(results) + [QueryResult(id, score)]
    {
      results := results + [QueryResult(id, score)];
    }

    method Size() returns (n: nat)
      ensures n == |results|
    {
      n := |results|;
    }

    /** get_results(): hand the collected pairs over; the container is left empty. */
    method GetResults() returns (r: seq<QueryResult>)
      modifies this
      ensures r == old(results) && results == []
    {
      r := results;
      results := [];
    }
  }

  // ---------------------------------------------------------------- the unique container

  /** The id-to-score view of a run of emplace calls in which a later score replaces an earlier one. */
  ghost function LastWins(es: seq<QueryResult>): map<nat, real> {
    if es == [] then map[] else LastWins(es[..|es| - 1])[es[|es| - 1].id := es[|es| - 1].score]
  }

  /** The ids that occur in es. */
  ghost function IdsOf(es: seq<QueryResult>): set<nat> {
    set i | 0 <= i < |es| :: es[i].id
  }

  /** LastWins keeps exactly the ids emplaced, each with the score of its last emplace. */
  lemma {:induction false} LastWinsLatest(es: seq<QueryResult>, i: nat)
    requires i < |es|
    requires forall j :: i < j < |es| ==> es[j].id != es[i].id
    ensures es[i].id in LastWins(es) && LastWins(es)[es[i].id] == es[i].score
  {
    if i < |es| - 1 {
      var init := es[..|es| - 1];
      assert init[i] == es[i];
      forall j | i < j < |init| ensures init[j].id != init[i].id {
        assert init[j] == es[j];
      }
      LastWinsLatest(init, i);
    }
  }

  lemma {:induction false} LastWinsKeys(es: seq<QueryResult>)
    ensures LastWins(es).Keys == IdsOf(es)
  {
    if es != [] {
      var init := es[..|es| - 1];
      LastWinsKeys(init);
      forall x | x in IdsOf(es) ensures x in IdsOf(init) + {es[|es| - 1].id} {
        var i :| 0 <= i < |es| && es[i].id == x;
        if i < |init| { assert init[i] == es[i]; }
      }
      forall x | x in IdsOf(init) ensures x in IdsOf(es) {
        var i :| 0 <= i < |init| && init[i].id == x;
        assert es[i] == init[i];
      }
    }
  }

  /** r lists the pairs of m, each id once, in some order. */
  ghost predicate Lists(r: seq<QueryResult>, m: map<nat, real>) {
    && |r| == |m|
    && (forall i, j :: 0 <= i < j < |r| ==> r[i].id != r[j].id)
    && (forall i :: 0 <= i < |r| ==> r[i].id in m && m[r[i].id] == r[i].score)
    && IdsOf(r) == m.Keys
  }

  class UniqueResultsContainer {
    /** The score each id has now. */
    var idToScore: map<nat, real>
    /** Every pair emplaced since the last get_results(), in order. */
    ghost var emplaced: seq<QueryResult>

    ghost predicate Valid()
      reads this
    {
      idToScore == LastWins(emplaced)
    }

    constructor ()
      ensures Valid() && idToScore == map[] && emplaced == []
    {
      idToScore := map[];
      emplaced := [];
    }

    method Emplace(id: nat, score: real)
      requires Valid()
      modifies this
      ensures Valid()
      ensures emplaced == old(emplaced) + [QueryResult(id, score)]
      ensures idToScore == old(idToScore)[id := score]
    {
      emplaced := emplaced + [QueryResult(id, score)];
      idToScore := idToScore[id := score];
      assert emplaced[..|emplaced| - 1] == old(emplaced);
    }

    /** size(): the number of distinct ids emplaced. */
    method Size() returns (n: nat)
      requires Valid()
      ensures n == |idToScore| == |IdsOf(emplaced)|
    {
      LastWinsKeys(emplaced);
      assert |idToScore| == |idToScore.Keys|;
      n := |idToScore|;
    }

    /** get_results(): one pair per id, in no particular order; the container is left empty. */
    method GetResults() returns (r: seq<QueryResult>)
      requires Valid()
      modifies this
      ensures Valid() && idToScore == map[] && emplaced == []
      ensures Lists(r, old(idToScore))
    {
      r := Listing(idToScore);
      idToScore := map[];
      emplaced := [];
    }
  }

  /** Take the pairs out of m one at a time. */
  method Listing(m: map<nat, real>) returns (r: seq<QueryResult>)
    ensures Lists(r, m)
  {
    r := [];
    var rest := m;
    assert IdsOf(r) == {};
    while rest != map[]
      invariant Partial(r, rest, m)
      decreases |rest|
    {
      var k :| k in rest;
      ListingStep(r, rest, m, k);
      r := r + [QueryResult(k, rest[k])];
      rest := rest - {k};
    }
    assert IdsOf(r) == m.Keys;
  }

  /** The loop state of Listing: r lists part of m and rest is the part still to go. */
  ghost predicate Partial(r: seq<QueryResult>, rest: map<nat, real>, m: map<nat, real>) {
    && IdsOf(r) !! rest.Keys
    && IdsOf(r) + rest.Keys == m.Keys
    && |r| + |rest| == |m|
    && (forall i, j :: 0 <= i < j < |r| ==> r[i].id != r[j].id)
    && (forall i :: 0 <= i < |r| ==> r[i].id in m && m[r[i].id] == r[i].score)
    && (forall k | k in rest :: k in m && rest[k] == m[k])
  }

  lemma ListingStep(r: seq<QueryResult>, rest: map<nat, real>, m: map<nat, real>, k: nat)
    requires k in rest && Partial(r, rest, m)
    ensures Partial(r + [QueryResult(k, rest[k])], rest - {k}, m)
  {
    var e := QueryResult(k, rest[k]);
    IdsAppend(r, e);
    MovedKey(IdsOf(r), rest, m.Keys, k);
    AppendFresh(r, e);
    AppendScored(r, e, m);
  }

  /** Moving key k from what is left to what is listed keeps the two apart and their union whole. */
  lemma MovedKey(listed: set<nat>, rest: map<nat, real>, all: set<nat>, k: nat)
    requires listed !! rest.Keys && listed + rest.Keys == all && k in rest
    ensures (listed + {k}) !! (rest - {k}).Keys && (listed + {k}) + (rest - {k}).Keys == all
    ensures |rest - {k}| == |rest| - 1
  {
    assert (rest - {k}).Keys == rest.Keys - {k};
    assert |rest - {k}| == |(rest - {k}).Keys| && |rest| == |rest.Keys|;
  }

  /** Appending a result with a new id keeps the ids distinct. */
  lemma AppendFresh(r: seq<QueryResult>, e: QueryResult)
    requires forall i, j :: 0 <= i < j < |r| ==> r[i].id != r[j].id
    requires e.id !in IdsOf(r)
    ensures var t := r + [e]; forall i, j :: 0 <= i < j < |t| ==> t[i].id != t[j].id
  {
    var t := r + [e];
    forall i, j | 0 <= i < j < |t| ensures t[i].id != t[j].id {
      assert t[i] == r[i];
      if j == |r| {
        assert r[i].id in IdsOf(r);
      } else {
        assert t[j] == r[j];
      }
    }
  }

  /** Appending a result that m agrees with keeps every listed score m's. */
  lemma AppendScored(r: seq<QueryResult>, e: QueryResult, m: map<nat, real>)
    requires forall i :: 0 <= i < |r| ==> r[i].id in m && m[r[i].id] == r[i].score
    requires e.id in m && m[e.id] == e.score
    ensures var t := r + [e]; forall i :: 0 <= i < |t| ==> t[i].id in m && m[t[i].id] == t[i].score
  {
    var t := r + [e];
    forall i | 0 <= i < |t| ensures t[i].id in m && m[t[i].id] == t[i].score {
      if i < |r| { assert t[i] == r[i]; }
    }
  }

  lemma IdsAppend(r: seq<QueryResult>, e: QueryResult)
    ensures IdsOf(r + [e]) == IdsOf(r) + {e.id}
  {
    var t := r + [e];
    forall x | x in IdsOf(r) ensures x in IdsOf(t) {
      var i :| 0 <= i < |r| && r[i].id == x;
      assert t[i] == r[i];
    }
    forall x | x in IdsOf(t) ensures x in IdsOf(r) + {e.id} {
      var i :| 0 <= i < |t| && t[i].id == x;
      if i < |r| { assert t[i] == r[i]; }
    }
    assert t[|r|] == e;
  }

  // ---------------------------------------------------------------- the reply and its iterator

  class QueryReply {
    var results: seq<QueryResult>

    constructor ()
      ensures results == []
    {
      results := [];
    }

    method PushBack(r: QueryResult)
      modifies this
      ensures results == old(results) + [r]
    {
      results := results + [r];
    }

    /**
     * VecSimQueryReply_Len. Both a reply and a default container hold their results as a plain
     * list, so this length and DefaultResultsContainer.Size are the same function of the list.
     */
    method Len() returns (n: nat)
      ensures n == |results|
    {
      n := |results|;
    }

    /** VecSimQueryReply_GetIterator: a fresh cursor at the first result. */
    method GetIterator() returns (it: ReplyIterator)
      ensures fresh(it) && it.reply == this && it.index == 0 && !it.freed
    {
      it := new ReplyIterator(this);
    }
  }

  class ReplyIterator {
    const reply: QueryReply
    /** The position of the result Next() returns. */
    var index: nat
    /** Set by Free(); a freed iterator may not be used again. */
    var freed: bool

    ghost predicate Valid()
      reads this, reply
    {
      index <= |reply.results|
    }

    constructor (reply: QueryReply)
      ensures this.reply == reply && index == 0 && !freed
    {
      this.reply := reply;
      index := 0;
      freed := false;
    }

    /** VecSimQueryReply_IteratorHasNext */
    method HasNext() returns (b: bool)
      requires !freed
      ensures b <==> index < |reply.results|
    {
      b := index < |reply.results|;
    }

    /** VecSimQueryReply_IteratorNext: the next result, or none once all have been given. */
    method Next() returns (r: Option<QueryResult>)
      requires Valid() && !freed
      modifies this
      ensures Valid() && freed == old(freed)
      ensures old(index) < |reply.results| ==> r == Some(reply.results[old(index)]) && index == old(index) + 1
      ensures old(index) == |reply.results| ==> r == None && index == old(index)
    {
      if index < |reply.results| {
        r := Some(reply.results[index]);
        index := index + 1;
      } else {
        r := None;
      }
    }

    /** VecSimQueryReply_IteratorReset: back to the first result. */
    method Reset()
      requires !freed
      modifies this
      ensures index == 0 && freed == old(freed)
    {
      index := 0;
    }

    /** VecSimQueryReply_IteratorFree: the iterator goes away, the reply stays as it was. */
    method Free()
      requires !freed
      modifies this
      ensures freed && index == old(index)
    {
      freed := true;
    }
  }

  /** From wherever it stands, the iterator yields the rest of the results in order. */
  method Traverse(it: ReplyIterator) returns (yielded: seq<QueryResult>, allHadNext: bool)
    requires it.Valid() && !it.freed
    modifies it
    ensures it.Valid() && it.index == |it.reply.results| && it.freed == old(it.freed)
    ensures yielded == it.reply.results[old(it.index)..] && allHadNext
  {
    yielded, allHadNext := [], true;
    ghost var start := it.index;
    var n := it.reply.Len();
    while it.index < n
      invariant it.Valid() && start <= it.index && !it.freed
      invariant n == |it.reply.results|
      invariant yielded == it.reply.results[start..it.index] && allHadNext
      decreases n - it.index
    {
      var b := it.HasNext();
      var r := it.Next();
      allHadNext := allHadNext && b;
      yielded := yielded + [r.value];
    }
  }

  // ---------------------------------------------------------------- the recorded runs

  /** The first loop of the run: ids 0 .. n-1, with score id by default and id + 10 by unique id. */
  method FillContainers(n: nat) returns (drc: DefaultResultsContainer, urc: UniqueResultsContainer)
    ensures fresh(drc) && fresh(urc) && urc.Valid()
    ensures |drc.results| == n && forall k :: 0 <= k < n ==> drc.results[k] == QueryResult(k, k as real)
    ensures urc.idToScore.Keys == Range(n)
    ensures forall k | k in urc.idToScore :: urc.idToScore[k] == (k + 10) as real
  {
    drc := new DefaultResultsContainer();
    urc := new UniqueResultsContainer();
    var i := 0;
    while i < n
      invariant i <= n && urc.Valid()
      invariant |drc.results| == i && forall k :: 0 <= k < i ==> drc.results[k] == QueryResult(k, k as real)
      invariant urc.idToScore.Keys == Range(i)
      invariant forall k | k in urc.idToScore :: urc.idToScore[k] == (k + 10) as real
    {
      drc.Emplace(i, i as real);
      urc.Emplace(i, (i + 10) as real);
      i := i + 1;
    }
  }

  /** The second loop: every id again, now with score id. */
  method Rescore(urc: UniqueResultsContainer, n: nat)
    requires urc.Valid() && urc.idToScore.Keys == Range(n)
    requires forall k | k in urc.idToScore :: urc.idToScore[k] == (k + 10) as real
    modifies urc
    ensures urc.Valid() && urc.idToScore.Keys == Range(n)
    ensures forall k | k in urc.idToScore :: urc.idToScore[k] == k as real
  {
    RangeCard(n);
    var i := 0;
    while i < n
      invariant i <= n && urc.Valid()
      invariant urc.idToScore.Keys == Range(n)
      invariant forall k | k in urc.idToScore :: urc.idToScore[k] == if k < i then k as real else (k + 10) as real
    {
      urc.Emplace(i, i as real);
      i := i + 1;
    }
  }

  /**
   * Ten ids into each container; the unique one first gets score id + 10 for each id and then
   * score id, which replaces it. Both end with ten entries, and every id has the score id.
   */
  method ContainersRun() returns (defaultSize: nat, uniqueSize: nat, byDefault: seq<QueryResult>, byUnique: seq<QueryResult>)
    ensures defaultSize == 10 && uniqueSize == 10
    ensures |byDefault| == 10 && forall i :: 0 <= i < 10 ==> byDefault[i] == QueryResult(i, i as real)
    ensures |byUnique| == 10 && IdsOf(byUnique) == Range(10)
    ensures forall i :: 0 <= i < |byUnique| ==> byUnique[i].score == byUnique[i].id as real
  {
    var drc, urc := FillContainers(10);
    Rescore(urc, 10);
    RangeCard(10);
    assert |urc.idToScore| == |urc.idToScore.Keys|;
    defaultSize := drc.Size();
    uniqueSize := urc.Size();
    byDefault := drc.GetResults();
    byUnique := urc.GetResults();
  }

  /**
   * Three results, walked through three times with a reset after each pass; freeing the
   * iterator leaves the reply's length as it was.
   */
  method IteratorRun() returns (len: nat, passes: seq<seq<QueryResult>>, hadNext: bool, nextAtEnd: seq<bool>, lenAfterFree: nat)
    ensures len == 3
    ensures |passes| == 3 && forall p | p in passes :: p == [QueryResult(0, 0.0), QueryResult(1, 1.0), QueryResult(2, 2.0)]
    ensures hadNext && nextAtEnd == [false, false, false]
    ensures lenAfterFree == 3
  {
    var reply := new QueryReply();
    reply.PushBack(QueryResult(0, 0.0));
    reply.PushBack(QueryResult(1, 1.0));
    reply.PushBack(QueryResult(2, 2.0));
    len := reply.Len();
    var it := reply.GetIterator();
    passes, hadNext, nextAtEnd := [], true, [];
    var rep := 0;
    while rep < 3
      invariant rep <= 3 && it.reply == reply && it.index == 0 && it.Valid() && !it.freed
      invariant reply.results == [QueryResult(0, 0.0), QueryResult(1, 1.0), QueryResult(2, 2.0)]
      invariant |passes| == |nextAtEnd| == rep && hadNext
      invariant forall p | p in passes :: p == reply.results
      invariant nextAtEnd == seq(rep, _ => false)
    {
      var yielded, all := Traverse(it);
      var more := it.HasNext();
      it.Reset();
      passes, hadNext, nextAtEnd := passes + [yielded], hadNext && all, nextAtEnd + [more];
      rep := rep + 1;
    }
    it.Free();
    lenAfterFree := reply.Len();
  }
}
