/**
 * Resolution of raw query parameters into a query configuration
 * (VecSimIndex_ResolveParams): an ordered list of (name, value) text pairs, the kind
 * of query and the caller's output record become either the resolved configuration
 * or exactly one error code.
 *
 * This is the resolver of a brute-force index; the index argument of the C function is
 * left implicit. Its recognised names, compared without regard to ASCII case, are
 * "batch_size" and "hybrid_policy". The checks apply in a fixed precedence, so the
 * outcome depends on which parameters are present and not on where in the list they
 * stand (ResolvePermutation):
 *   1. no output record                              -> NullParam
 *   2. a recognised name given more than once        -> AlreadySet
 *   3. a hybrid_policy value that is not a policy    -> InvalidPolicyNExits
 *   4. policy adhoc_bf together with a batch_size    -> InvalidPolicyAdHocWithBatchSize
 *   5. any of these parameters on a non-hybrid query -> InvalidPolicyNHybrid
 *   6. batch_size not a canonical decimal in [1, INT64_MAX] -> BadValue
 *   7. a name that is not recognised                 -> UnknownParam
 * Otherwise the configuration starts from the zeroed record and receives the policy
 * and the batch size that were given.
 */
module QueryParams {
  import opened Wrappers
  import Decimal

  datatype QueryType = QueryNone | QueryKnn | QueryRange | QueryHybrid

  /** The search modes the resolver can set; EmptyMode is the zeroed value. */
  datatype SearchMode = EmptyMode | HybridAdhocBf | HybridBatches

  /** The part of VecSimQueryParams the resolver fills in; batchSize 0 means "unset". */
  datatype QueryConfig = QueryConfig(searchMode: SearchMode, batchSize: nat)

  /** The caller's output record: a null pointer, or a record with whatever it held before. */
  datatype Output = Null | Record(prior: QueryConfig)

  datatype RawParam = RawParam(name: string, value: string)

  datatype ResolveError =
    | NullParam
    | AlreadySet
    | InvalidPolicyNExits
    | InvalidPolicyAdHocWithBatchSize
    | InvalidPolicyNHybrid
    | BadValue
    | UnknownParam

  datatype Resolution = Resolved(config: QueryConfig) | Rejected(error: ResolveError)

  const Zero := QueryConfig(EmptyMode, 0)

  /** The largest signed 64-bit integer, LLONG_MAX. */
  const Int64Max: nat := 0x7FFF_FFFF_FFFF_FFFF

  const BatchSizeKey := "batch_size"
  const HybridPolicyKey := "hybrid_policy"
  const BatchesKey := "batches"
  const AdhocBfKey := "adhoc_bf"

  // ---------------------------------------------------------------- case folding

  function LowerChar(c: char): char {
    if 'A' <= c <= 'Z' then (c as int + 32) as char else c
  }

  /** ASCII lower-casing, the folding strcasecmp compares under. */
  function Lower(s: string): (r: string)
    ensures |r| == |s|
    ensures forall i :: 0 <= i < |s| ==> r[i] == LowerChar(s[i])
  {
    seq(|s|, i requires 0 <= i < |s| => LowerChar(s[i]))
  }

  predicate Named(p: RawParam, key: string) {
    Lower(p.name) == key
  }

  predicate Recognised(p: RawParam) {
    Named(p, BatchSizeKey) || Named(p, HybridPolicyKey)
  }

  predicate AllRecognised(ps: seq<RawParam>) {
    forall i :: 0 <= i < |ps| ==> Recognised(ps[i])
  }

  // ---------------------------------------------------------------- lookups

  /** How many parameters carry the name key. */
  function Count(ps: seq<RawParam>, key: string): nat {
    if ps == [] then 0 else (if Named(ps[0], key) then 1 else 0) + Count(ps[1..], key)
  }

  /** The value of the first parameter named key. */
  function Find(ps: seq<RawParam>, key: string): (r: Option<string>)
    ensures r.None? <==> Count(ps, key) == 0
  {
    if ps == [] then None else if Named(ps[0], key) then Some(ps[0].value) else Find(ps[1..], key)
  }

  /** The search mode a hybrid_policy value names, if any. */
  function PolicyOf(value: string): (r: Option<SearchMode>)
    ensures r.Some? ==> r.value != EmptyMode
  {
    if Lower(value) == BatchesKey then Some(HybridBatches)
    else if Lower(value) == AdhocBfKey then Some(HybridAdhocBf)
    else None
  }

  /** A batch_size value: a canonical positive decimal no larger than INT64_MAX. */
  function ParseBatchSize(value: string): (r: Option<nat>)
    ensures r.Some? ==> 1 <= r.value <= Int64Max
  {
    match Decimal.Parse(value)
    case Some(n) => if 1 <= n <= Int64Max then Some(n) else None
    case None => None
  }

  // ---------------------------------------------------------------- resolution

  /** What every resolved configuration satisfies for a query of the given kind. */
  predicate ValidConfig(c: QueryConfig, kind: QueryType) {
    && c.batchSize <= Int64Max
    && !(c.searchMode == HybridAdhocBf && c.batchSize > 0)
    && (kind != QueryHybrid ==> c == Zero)
  }

  function Resolve(ps: seq<RawParam>, out: Output, kind: QueryType): (r: Resolution)
    ensures out.Null? ==> r == Rejected(NullParam)
    ensures r.Resolved? ==> ValidConfig(r.config, kind)
  {
    if out.Null? then Rejected(NullParam)
    else if Count(ps, BatchSizeKey) > 1 || Count(ps, HybridPolicyKey) > 1 then Rejected(AlreadySet)
    else
      var policy := Find(ps, HybridPolicyKey);
      var batch := Find(ps, BatchSizeKey);
      var mode := if policy.Some? then PolicyOf(policy.value) else Some(EmptyMode);
      if mode.None? then Rejected(InvalidPolicyNExits)
      else if mode.value == HybridAdhocBf && batch.Some? then Rejected(InvalidPolicyAdHocWithBatchSize)
      else if (policy.Some? || batch.Some?) && kind != QueryHybrid then Rejected(InvalidPolicyNHybrid)
      else if batch.Some? && ParseBatchSize(batch.value).None? then Rejected(BadValue)
      else if !AllRecognised(ps) then Rejected(UnknownParam)
      else Resolved(QueryConfig(mode.value, if batch.Some? then ParseBatchSize(batch.value).value else 0))
  }

  // ---------------------------------------------------------------- lemmas

  /** An empty list resolves, for every kind of query, to the zeroed record, whatever it held. */
  lemma EmptyResolvesToZero(prior: QueryConfig, kind: QueryType)
    ensures Resolve([], Record(prior), kind) == Resolved(Zero)
  {
  }

  lemma {:induction false} CountPositive(ps: seq<RawParam>, j: nat, key: string)
    requires j < |ps| && Named(ps[j], key)
    ensures Count(ps, key) >= 1
  {
    if j > 0 {
      CountPositive(ps[1..], j - 1, key);
    }
  }

  lemma {:induction false} CountAtLeastTwo(ps: seq<RawParam>, i: nat, j: nat, key: string)
    requires i < j < |ps| && Named(ps[i], key) && Named(ps[j], key)
    ensures Count(ps, key) >= 2
  {
    if i == 0 {
      CountPositive(ps[1..], j - 1, key);
    } else {
      CountAtLeastTwo(ps[1..], i - 1, j - 1, key);
    }
  }

  lemma LookupsOne(a: RawParam, key: string)
    ensures Count([a], key) == if Named(a, key) then 1 else 0
    ensures Find([a], key) == if Named(a, key) then Some(a.value) else None
  {
    assert [a][1..] == [];
  }

  /** A recognised name given twice is refused, whatever the two values are. */
  lemma DuplicateRejected(ps: seq<RawParam>, i: nat, j: nat, key: string, prior: QueryConfig, kind: QueryType)
    requires key == BatchSizeKey || key == HybridPolicyKey
    requires i < j < |ps| && Named(ps[i], key) && Named(ps[j], key)
    ensures Resolve(ps, Record(prior), kind) == Rejected(AlreadySet)
  {
    CountAtLeastTwo(ps, i, j, key);
  }

  lemma {:induction false} CountConcat(p: seq<RawParam>, q: seq<RawParam>, key: string)
    ensures Count(p + q, key) == Count(p, key) + Count(q, key)
  {
    if p != [] {
      assert (p + q)[1..] == p[1..] + q;
      CountConcat(p[1..], q, key);
    } else {
      assert p + q == q;
    }
  }

  lemma {:induction false} FindConcat(p: seq<RawParam>, q: seq<RawParam>, key: string)
    ensures Find(p + q, key) == if Count(p, key) > 0 then Find(p, key) else Find(q, key)
  {
    if p != [] {
      assert (p + q)[1..] == p[1..] + q;
      FindConcat(p[1..], q, key);
    } else {
      assert p + q == q;
    }
  }

  lemma AllRecognisedConcat(p: seq<RawParam>, q: seq<RawParam>)
    ensures AllRecognised(p + q) <==> AllRecognised(p) && AllRecognised(q)
  {
    if AllRecognised(p) && AllRecognised(q) {
      forall i | 0 <= i < |p + q| ensures Recognised((p + q)[i]) {
        if i >= |p| {
          assert (p + q)[i] == q[i - |p|];
        }
      }
    }
    if AllRecognised(p + q) {
      forall i | 0 <= i < |p| ensures Recognised(p[i]) {
        assert p[i] == (p + q)[i];
      }
      forall i | 0 <= i < |q| ensures Recognised(q[i]) {
        assert q[i] == (p + q)[i + |p|];
      }
    }
  }

  /** Moving a leading part of the list to its end does not change the outcome. */
  lemma ResolveOrderIndependent(p: seq<RawParam>, q: seq<RawParam>, out: Output, kind: QueryType)
    ensures Resolve(p + q, out, kind) == Resolve(q + p, out, kind)
  {
    CountConcat(p, q, BatchSizeKey);
    CountConcat(q, p, BatchSizeKey);
    CountConcat(p, q, HybridPolicyKey);
    CountConcat(q, p, HybridPolicyKey);
    FindConcat(p, q, BatchSizeKey);
    FindConcat(q, p, BatchSizeKey);
    FindConcat(p, q, HybridPolicyKey);
    FindConcat(q, p, HybridPolicyKey);
    AllRecognisedConcat(p, q);
    AllRecognisedConcat(q, p);
  }

  /** Taking out the parameter at position i. */
  lemma CountWithout(ps: seq<RawParam>, i: nat, key: string)
    requires i < |ps|
    ensures Count(ps, key) == Count(ps[..i] + ps[i+1..], key) + (if Named(ps[i], key) then 1 else 0)
  {
    assert ps == ps[..i] + ([ps[i]] + ps[i+1..]);
    CountConcat(ps[..i], [ps[i]] + ps[i+1..], key);
    CountConcat([ps[i]], ps[i+1..], key);
    CountConcat(ps[..i], ps[i+1..], key);
    LookupsOne(ps[i], key);
  }

  lemma MultisetWithout(ps: seq<RawParam>, i: nat)
    requires i < |ps|
    ensures multiset(ps[..i] + ps[i+1..]) == multiset(ps) - multiset{ps[i]}
  {
    assert ps == ps[..i] + [ps[i]] + ps[i+1..];
    assert multiset(ps) == multiset(ps[..i]) + multiset{ps[i]} + multiset(ps[i+1..]);
  }

  lemma IndexOf(qs: seq<RawParam>, x: RawParam) returns (i: nat)
    requires x in qs
    ensures i < |qs| && qs[i] == x
  {
    i :| 0 <= i < |qs| && qs[i] == x;
  }

  /** The first parameter of ps stands at some position i of qs, and the rest match up. */
  lemma Matching(ps: seq<RawParam>, qs: seq<RawParam>) returns (i: nat)
    requires ps != [] && multiset(ps) == multiset(qs)
    ensures i < |qs| && qs[i] == ps[0]
    ensures multiset(ps[1..]) == multiset(qs[..i] + qs[i+1..])
  {
    assert ps[0] in multiset(qs);
    i := IndexOf(qs, ps[0]);
    MultisetWithout(qs, i);
    assert ps == [ps[0]] + ps[1..];
    assert multiset(ps) == multiset{ps[0]} + multiset(ps[1..]);
  }

  /** Count depends only on which parameters the list holds, with their multiplicities. */
  lemma {:induction false} CountPermutation(ps: seq<RawParam>, qs: seq<RawParam>, key: string)
    requires multiset(ps) == multiset(qs)
    ensures Count(ps, key) == Count(qs, key)
    decreases |ps|
  {
    if ps == [] {
      assert |qs| == |multiset(qs)| == 0;
    } else {
      var i := Matching(ps, qs);
      var tail, rest := ps[1..], qs[..i] + qs[i+1..];
      CountPermutation(tail, rest, key);
      CountWithout(ps, 0, key);
      CountWithout(qs, i, key);
    }
  }

  /** When only one parameter carries the name, Find yields that parameter's value. */
  lemma {:induction false} FindTheOne(ps: seq<RawParam>, x: RawParam, key: string)
    requires Count(ps, key) == 1 && x in ps && Named(x, key)
    ensures Find(ps, key) == Some(x.value)
  {
    if ps[0] != x {
      assert x in ps[1..];
      var j :| 0 <= j < |ps[1..]| && ps[1..][j] == x;
      CountPositive(ps[1..], j, key);
      FindTheOne(ps[1..], x, key);
    }
  }

  lemma {:induction false} FindWitness(ps: seq<RawParam>, key: string) returns (x: RawParam)
    requires Find(ps, key).Some?
    ensures x in ps && Named(x, key) && Find(ps, key) == Some(x.value)
  {
    if Named(ps[0], key) {
      x := ps[0];
    } else {
      x := FindWitness(ps[1..], key);
    }
  }

  /** With the name given at most once, Find depends only on which parameters the list holds. */
  lemma FindPermutation(ps: seq<RawParam>, qs: seq<RawParam>, key: string)
    requires multiset(ps) == multiset(qs) && Count(ps, key) <= 1
    ensures Find(ps, key) == Find(qs, key)
  {
    CountPermutation(ps, qs, key);
    if Find(ps, key).Some? {
      var x := FindWitness(ps, key);
      assert x in multiset(qs);
      FindTheOne(qs, x, key);
    }
  }

  lemma AllRecognisedPermutation(ps: seq<RawParam>, qs: seq<RawParam>)
    requires multiset(ps) == multiset(qs)
    ensures AllRecognised(ps) <==> AllRecognised(qs)
  {
    if AllRecognised(ps) {
      forall i | 0 <= i < |qs| ensures Recognised(qs[i]) {
        assert qs[i] in multiset(ps);
      }
    }
    if AllRecognised(qs) {
      forall i | 0 <= i < |ps| ensures Recognised(ps[i]) {
        assert ps[i] in multiset(qs);
      }
    }
  }

  /**
   * Where a parameter stands in the list does not change the outcome: two lists that hold
   * the same parameters, each as often, resolve alike.
   */
  lemma ResolvePermutation(ps: seq<RawParam>, qs: seq<RawParam>, out: Output, kind: QueryType)
    requires multiset(ps) == multiset(qs)
    ensures Resolve(ps, out, kind) == Resolve(qs, out, kind)
  {
    CountPermutation(ps, qs, BatchSizeKey);
    CountPermutation(ps, qs, HybridPolicyKey);
    if Count(ps, BatchSizeKey) <= 1 && Count(ps, HybridPolicyKey) <= 1 {
      FindPermutation(ps, qs, BatchSizeKey);
      FindPermutation(ps, qs, HybridPolicyKey);
      AllRecognisedPermutation(ps, qs);
    }
  }

  /** Two neighbouring parameters can trade places, the case rotation alone does not reach. */
  lemma SwapAdjacent(p: seq<RawParam>, a: RawParam, b: RawParam, q: seq<RawParam>, out: Output, kind: QueryType)
    ensures Resolve(p + [a, b] + q, out, kind) == Resolve(p + [b, a] + q, out, kind)
  {
    assert multiset(p + [a, b] + q) == multiset(p) + multiset{a, b} + multiset(q);
    assert multiset(p + [b, a] + q) == multiset(p) + multiset{b, a} + multiset(q);
    ResolvePermutation(p + [a, b] + q, p + [b, a] + q, out, kind);
  }

  // ---------------------------------------------------------------- case

  predicate SameIgnoringCase(ps: seq<RawParam>, qs: seq<RawParam>) {
    && |ps| == |qs|
    && forall i :: 0 <= i < |ps| ==>
         Lower(ps[i].name) == Lower(qs[i].name) && Lower(ps[i].value) == Lower(qs[i].value)
  }

  lemma {:induction false} LookupsIgnoreCase(ps: seq<RawParam>, qs: seq<RawParam>, key: string)
    requires SameIgnoringCase(ps, qs)
    ensures Count(ps, key) == Count(qs, key)
    ensures Find(ps, key).Some? ==> Lower(Find(ps, key).value) == Lower(Find(qs, key).value)
  {
    if ps != [] {
      assert SameIgnoringCase(ps[1..], qs[1..]) by {
        forall i | 0 <= i < |ps[1..]|
          ensures Lower(ps[1..][i].name) == Lower(qs[1..][i].name)
          ensures Lower(ps[1..][i].value) == Lower(qs[1..][i].value)
        {
          assert ps[1..][i] == ps[i + 1] && qs[1..][i] == qs[i + 1];
        }
      }
      LookupsIgnoreCase(ps[1..], qs[1..], key);
    }
  }

  /** Lower-casing never turns a non-digit into a digit, and leaves digits alone. */
  lemma LowerCharDigits(c: char)
    ensures Decimal.IsDigit(LowerChar(c)) <==> Decimal.IsDigit(c)
    ensures Decimal.IsDigit(c) ==> LowerChar(c) == c
  {
  }

  lemma DigitsIgnoreCase(v: string, w: string)
    requires Lower(v) == Lower(w) && Decimal.AllDigits(v)
    ensures v == w
  {
    forall i | 0 <= i < |v| ensures v[i] == w[i] {
      LowerCharDigits(v[i]);
      LowerCharDigits(w[i]);
      assert LowerChar(v[i]) == LowerChar(w[i]);
    }
  }

  lemma ParseBatchSizeIgnoresCase(v: string, w: string)
    requires Lower(v) == Lower(w)
    ensures ParseBatchSize(v) == ParseBatchSize(w)
  {
    if Decimal.AllDigits(v) {
      DigitsIgnoreCase(v, w);
    } else if Decimal.AllDigits(w) {
      DigitsIgnoreCase(w, v);
    }
  }

  /** Names and values are matched without regard to ASCII case. */
  lemma ResolveIgnoresCase(ps: seq<RawParam>, qs: seq<RawParam>, out: Output, kind: QueryType)
    requires SameIgnoringCase(ps, qs)
    ensures Resolve(ps, out, kind) == Resolve(qs, out, kind)
  {
    LookupsIgnoreCase(ps, qs, BatchSizeKey);
    LookupsIgnoreCase(ps, qs, HybridPolicyKey);
    BatchSizeIgnoresCase(ps, qs);
    PolicyIgnoresCase(ps, qs);
    RecognisedIgnoresCase(ps, qs);
  }

  lemma PolicyIgnoresCase(ps: seq<RawParam>, qs: seq<RawParam>)
    requires SameIgnoringCase(ps, qs)
    ensures Find(ps, HybridPolicyKey).Some? <==> Find(qs, HybridPolicyKey).Some?
    ensures Find(ps, HybridPolicyKey).Some? && Find(qs, HybridPolicyKey).Some? ==>
      PolicyOf(Find(ps, HybridPolicyKey).value) == PolicyOf(Find(qs, HybridPolicyKey).value)
  {
    LookupsIgnoreCase(ps, qs, HybridPolicyKey);
  }

  lemma BatchSizeIgnoresCase(ps: seq<RawParam>, qs: seq<RawParam>)
    requires SameIgnoringCase(ps, qs)
    ensures Find(ps, BatchSizeKey).Some? <==> Find(qs, BatchSizeKey).Some?
    ensures Find(ps, BatchSizeKey).Some? && Find(qs, BatchSizeKey).Some? ==>
      ParseBatchSize(Find(ps, BatchSizeKey).value) == ParseBatchSize(Find(qs, BatchSizeKey).value)
  {
    LookupsIgnoreCase(ps, qs, BatchSizeKey);
    var b1, b2 := Find(ps, BatchSizeKey), Find(qs, BatchSizeKey);
    if b1.Some? {
      ParseBatchSizeIgnoresCase(b1.value, b2.value);
    }
  }

  lemma RecognisedIgnoresCase(ps: seq<RawParam>, qs: seq<RawParam>)
    requires SameIgnoringCase(ps, qs)
    ensures AllRecognised(ps) <==> AllRecognised(qs)
  {
    assert forall i :: 0 <= i < |ps| ==> (Recognised(ps[i]) <==> Recognised(qs[i]));
  }

  // ---------------------------------------------------------------- round trip

  /** The policy text a configuration's search mode is requested by. */
  function PolicyText(mode: SearchMode): string {
    match mode
    case HybridBatches => BatchesKey
    case HybridAdhocBf => AdhocBfKey
    case EmptyMode => ""
  }

  /** The raw parameters that request configuration c: only the fields it sets. */
  function Encode(c: QueryConfig): seq<RawParam> {
    (if c.searchMode == EmptyMode then [] else [RawParam(HybridPolicyKey, PolicyText(c.searchMode))])
    + (if c.batchSize == 0 then [] else [RawParam(BatchSizeKey, Decimal.ToDecimal(c.batchSize))])
  }

  lemma KeysAreLowerCase()
    ensures Lower(BatchSizeKey) == BatchSizeKey && Lower(HybridPolicyKey) == HybridPolicyKey
    ensures Lower(BatchesKey) == BatchesKey && Lower(AdhocBfKey) == AdhocBfKey
  {
    assert Lower(BatchSizeKey) == BatchSizeKey;
    assert Lower(HybridPolicyKey) == HybridPolicyKey;
    assert Lower(BatchesKey) == BatchesKey;
    assert Lower(AdhocBfKey) == AdhocBfKey;
  }

  /** A batch_size value is accepted exactly when it is the canonical text of a number in [1, INT64_MAX]. */
  lemma BatchSizeText(v: string, n: nat)
    ensures ParseBatchSize(v) == Some(n) <==> 1 <= n <= Int64Max && v == Decimal.ToDecimal(n)
  {
    if ParseBatchSize(v) == Some(n) {
      Decimal.ToDecimalParse(v);
    }
    if v == Decimal.ToDecimal(n) {
      Decimal.ParseToDecimal(n);
    }
  }

  /** Every configuration a hybrid query can hold is produced by resolving its own encoding. */
  lemma EncodeResolves(c: QueryConfig, prior: QueryConfig)
    requires ValidConfig(c, QueryHybrid)
    ensures Resolve(Encode(c), Record(prior), QueryHybrid) == Resolved(c)
  {
    KeysAreLowerCase();
    var p: seq<RawParam> := if c.searchMode == EmptyMode then [] else [RawParam(HybridPolicyKey, PolicyText(c.searchMode))];
    var q: seq<RawParam> := if c.batchSize == 0 then [] else [RawParam(BatchSizeKey, Decimal.ToDecimal(c.batchSize))];
    assert Encode(c) == p + q;
    if p != [] {
      LookupsOne(p[0], BatchSizeKey);
      LookupsOne(p[0], HybridPolicyKey);
    }
    if q != [] {
      LookupsOne(q[0], BatchSizeKey);
      LookupsOne(q[0], HybridPolicyKey);
      BatchSizeText(Decimal.ToDecimal(c.batchSize), c.batchSize);
    }
    CountConcat(p, q, BatchSizeKey);
    CountConcat(p, q, HybridPolicyKey);
    FindConcat(p, q, BatchSizeKey);
    FindConcat(p, q, HybridPolicyKey);
    AllRecognisedConcat(p, q);
  }

  /** Whatever list a configuration was resolved from, its encoding resolves to it again. */
  lemma ResolvedIsReproducible(ps: seq<RawParam>, out: Output, kind: QueryType)
    requires Resolve(ps, out, kind).Resolved?
    ensures Resolve(Encode(Resolve(ps, out, kind).config), out, kind) == Resolve(ps, out, kind)
  {
    var c := Resolve(ps, out, kind).config;
    if kind == QueryHybrid {
      EncodeResolves(c, out.prior);
    }
  }

  // ---------------------------------------------------------------- the single rules

  /** A policy adhoc_bf with any batch_size is refused, in either order and for every kind of query. */
  lemma AdhocWithBatchSizeRejected(policyName: string, policyValue: string, batchName: string,
                                   batchValue: string, prior: QueryConfig, kind: QueryType)
    requires Lower(policyName) == HybridPolicyKey && Lower(policyValue) == AdhocBfKey
    requires Lower(batchName) == BatchSizeKey
    ensures Resolve([RawParam(policyName, policyValue), RawParam(batchName, batchValue)], Record(prior), kind)
            == Rejected(InvalidPolicyAdHocWithBatchSize)
    ensures Resolve([RawParam(batchName, batchValue), RawParam(policyName, policyValue)], Record(prior), kind)
            == Rejected(InvalidPolicyAdHocWithBatchSize)
  {
    KeysAreLowerCase();
    var a, b := RawParam(policyName, policyValue), RawParam(batchName, batchValue);
    assert [a, b] == [a] + [b] && [b, a] == [b] + [a];
    LookupsOne(a, BatchSizeKey);
    LookupsOne(a, HybridPolicyKey);
    LookupsOne(b, BatchSizeKey);
    LookupsOne(b, HybridPolicyKey);
    CountConcat([a], [b], BatchSizeKey);
    CountConcat([a], [b], HybridPolicyKey);
    FindConcat([a], [b], BatchSizeKey);
    FindConcat([a], [b], HybridPolicyKey);
    ResolveOrderIndependent([a], [b], Record(prior), kind);
  }

  /**
   * A list with a hybrid parameter in it (batch_size alone included) that passes the checks
   * before the kind of query is considered, is refused by a query of any other kind, even
   * when its batch_size is malformed or another name is unknown: the kind is checked first.
   */
  lemma NonHybridRejected(ps: seq<RawParam>, prior: QueryConfig, kind: QueryType)
    requires kind != QueryHybrid
    requires exists i :: 0 <= i < |ps| && Recognised(ps[i])
    requires Resolve(ps, Record(prior), QueryHybrid).Resolved?
          || Resolve(ps, Record(prior), QueryHybrid) == Rejected(BadValue)
          || Resolve(ps, Record(prior), QueryHybrid) == Rejected(UnknownParam)
    ensures Resolve(ps, Record(prior), kind) == Rejected(InvalidPolicyNHybrid)
  {
    var i :| 0 <= i < |ps| && Recognised(ps[i]);
    if Named(ps[i], BatchSizeKey) {
      CountPositive(ps, i, BatchSizeKey);
    } else {
      CountPositive(ps, i, HybridPolicyKey);
    }
  }

  /** The kind is checked before the batch size: a malformed batch_size alone on another kind of query. */
  lemma NonHybridBeforeBadValue(name: string, value: string, prior: QueryConfig, kind: QueryType)
    requires Lower(name) == BatchSizeKey && kind != QueryHybrid
    ensures Resolve([RawParam(name, value)], Record(prior), kind) == Rejected(InvalidPolicyNHybrid)
  {
    KeysAreLowerCase();
    LookupsOne(RawParam(name, value), BatchSizeKey);
    LookupsOne(RawParam(name, value), HybridPolicyKey);
  }

  /**
   * A hybrid_policy value that names no policy is refused, for every kind of query and
   * whatever else the list holds, once no recognised name is given twice.
   */
  lemma UnknownPolicyRejected(ps: seq<RawParam>, out: Output, kind: QueryType)
    requires out.Record?
    requires Count(ps, BatchSizeKey) <= 1 && Count(ps, HybridPolicyKey) <= 1
    requires Find(ps, HybridPolicyKey).Some? && PolicyOf(Find(ps, HybridPolicyKey).value).None?
    ensures Resolve(ps, out, kind) == Rejected(InvalidPolicyNExits)
  {
  }

  /** A lone batch_size resolves to exactly the number its canonical text names; any other text is BadValue. */
  lemma SingleBatchSize(name: string, value: string, n: nat, prior: QueryConfig)
    requires Lower(name) == BatchSizeKey
    ensures Resolve([RawParam(name, value)], Record(prior), QueryHybrid) == Resolved(QueryConfig(EmptyMode, n))
            <==> 1 <= n <= Int64Max && value == Decimal.ToDecimal(n)
    ensures Resolve([RawParam(name, value)], Record(prior), QueryHybrid).Rejected? ==>
            Resolve([RawParam(name, value)], Record(prior), QueryHybrid).error == BadValue
  {
    KeysAreLowerCase();
    LookupsOne(RawParam(name, value), BatchSizeKey);
    LookupsOne(RawParam(name, value), HybridPolicyKey);
    BatchSizeText(value, n);
  }

  /** A lone hybrid_policy sets the mode it names and nothing else; any other value is InvalidPolicyNExits. */
  lemma SinglePolicy(name: string, value: string, prior: QueryConfig)
    requires Lower(name) == HybridPolicyKey
    ensures Resolve([RawParam(name, value)], Record(prior), QueryHybrid)
            == if Lower(value) == BatchesKey then Resolved(QueryConfig(HybridBatches, 0))
               else if Lower(value) == AdhocBfKey then Resolved(QueryConfig(HybridAdhocBf, 0))
               else Rejected(InvalidPolicyNExits)
  {
    KeysAreLowerCase();
    LookupsOne(RawParam(name, value), BatchSizeKey);
    LookupsOne(RawParam(name, value), HybridPolicyKey);
  }

  // ---------------------------------------------------------------- the recorded cases

  lemma RecordedTexts()
    ensures Lower("batch_size") == BatchSizeKey
    ensures Lower("HYBRID_POLICY") == HybridPolicyKey
    ensures Lower("batches") == BatchesKey
    ensures Lower("ADhOC_bf") == AdhocBfKey
    ensures Lower("batches_wrong") != BatchesKey && Lower("batches_wrong") != AdhocBfKey
    ensures Decimal.ToDecimal(100) == "100"
    ensures Decimal.ToDecimal(200) == "200"
  {
    assert Lower("batch_size") == BatchSizeKey;
    assert Lower("HYBRID_POLICY") == HybridPolicyKey;
    assert Lower("batches") == BatchesKey;
    assert Lower("ADhOC_bf") == AdhocBfKey;
    assert Decimal.ToDecimal(10) == "10";
    assert Decimal.ToDecimal(20) == "20";
  }

  /** The outcomes tests/unit/test_common.cpp records for a hybrid query, case by case. */
  lemma RecordedOutcomes(prior: QueryConfig)
    ensures Resolve([RawParam("batch_size", "100")], Record(prior), QueryHybrid)
            == Resolved(QueryConfig(EmptyMode, 100))
    ensures Resolve([RawParam("batch_size", "100"), RawParam("batch_size", "200")], Record(prior), QueryHybrid)
            == Rejected(AlreadySet)
    ensures Resolve([RawParam("batch_size", "100"), RawParam("HYBRID_POLICY", "batches_wrong")], Record(prior), QueryHybrid)
            == Rejected(InvalidPolicyNExits)
    ensures Resolve([RawParam("batch_size", "100"), RawParam("HYBRID_POLICY", "batches")], Record(prior), QueryHybrid)
            == Resolved(QueryConfig(HybridBatches, 100))
    ensures Resolve([RawParam("HYBRID_POLICY", "ADhOC_bf"), RawParam("HYBRID_POLICY", "batches")], Record(prior), QueryHybrid)
            == Rejected(AlreadySet)
    ensures Resolve([RawParam("HYBRID_POLICY", "ADhOC_bf")], Record(prior), QueryHybrid)
            == Resolved(QueryConfig(HybridAdhocBf, 0))
    ensures Resolve([RawParam("HYBRID_POLICY", "ADhOC_bf"), RawParam("batch_size", "100")], Record(prior), QueryHybrid)
            == Rejected(InvalidPolicyAdHocWithBatchSize)
    ensures Resolve([RawParam("HYBRID_POLICY", "batches"), RawParam("batch_size", "100")], Record(prior), QueryHybrid)
            == Resolved(QueryConfig(HybridBatches, 100))
  {
    RecordedSingleRules(prior);
    RecordedBatches(prior);
    RecordedWrongPolicy(prior);
  }

  /** The cases that follow from one rule each. */
  lemma RecordedSingleRules(prior: QueryConfig)
    ensures Resolve([RawParam("batch_size", "100")], Record(prior), QueryHybrid)
            == Resolved(QueryConfig(EmptyMode, 100))
    ensures Resolve([RawParam("batch_size", "100"), RawParam("batch_size", "200")], Record(prior), QueryHybrid)
            == Rejected(AlreadySet)
    ensures Resolve([RawParam("HYBRID_POLICY", "ADhOC_bf"), RawParam("HYBRID_POLICY", "batches")], Record(prior), QueryHybrid)
            == Rejected(AlreadySet)
    ensures Resolve([RawParam("HYBRID_POLICY", "ADhOC_bf")], Record(prior), QueryHybrid)
            == Resolved(QueryConfig(HybridAdhocBf, 0))
    ensures Resolve([RawParam("HYBRID_POLICY", "ADhOC_bf"), RawParam("batch_size", "100")], Record(prior), QueryHybrid)
            == Rejected(InvalidPolicyAdHocWithBatchSize)
  {
    RecordedTexts();
    var b100, b200 := RawParam("batch_size", "100"), RawParam("batch_size", "200");
    var batches := RawParam("HYBRID_POLICY", "batches");
    var adhoc := RawParam("HYBRID_POLICY", "ADhOC_bf");
    SingleBatchSize(b100.name, b100.value, 100, prior);
    DuplicateRejected([b100, b200], 0, 1, BatchSizeKey, prior, QueryHybrid);
    DuplicateRejected([adhoc, batches], 0, 1, HybridPolicyKey, prior, QueryHybrid);
    SinglePolicy(adhoc.name, adhoc.value, prior);
    AdhocWithBatchSizeRejected(adhoc.name, adhoc.value, b100.name, b100.value, prior, QueryHybrid);
  }

  /** The two mixed lists, through the encoding of the configuration they request. */
  lemma RecordedBatches(prior: QueryConfig)
    ensures Resolve([RawParam("batch_size", "100"), RawParam("HYBRID_POLICY", "batches")], Record(prior), QueryHybrid)
            == Resolved(QueryConfig(HybridBatches, 100))
    ensures Resolve([RawParam("HYBRID_POLICY", "batches"), RawParam("batch_size", "100")], Record(prior), QueryHybrid)
            == Resolved(QueryConfig(HybridBatches, 100))
  {
    RecordedTexts();
    var out := Record(prior);
    var b100 := RawParam("batch_size", "100");
    var batches := RawParam("HYBRID_POLICY", "batches");
    var c := QueryConfig(HybridBatches, 100);
    EncodeResolves(c, prior);
    assert Encode(c) == [RawParam(HybridPolicyKey, BatchesKey), RawParam(BatchSizeKey, "100")];
    assert SameIgnoringCase([batches, b100], Encode(c));
    ResolveIgnoresCase([batches, b100], Encode(c), out, QueryHybrid);
    assert [batches, b100] == [batches] + [b100] && [b100, batches] == [b100] + [batches];
    ResolveOrderIndependent([batches], [b100], out, QueryHybrid);
  }

  /** A policy value that names no policy, after a valid batch_size. */
  lemma RecordedWrongPolicy(prior: QueryConfig)
    ensures Resolve([RawParam("batch_size", "100"), RawParam("HYBRID_POLICY", "batches_wrong")], Record(prior), QueryHybrid)
            == Rejected(InvalidPolicyNExits)
  {
    RecordedTexts();
    var out := Record(prior);
    var b100 := RawParam("batch_size", "100");
    var wrong := RawParam("HYBRID_POLICY", "batches_wrong");
    assert [wrong, b100] == [wrong] + [b100] && [b100, wrong] == [b100] + [wrong];
    ResolveOrderIndependent([wrong], [b100], out, QueryHybrid);
    LookupsOne(wrong, BatchSizeKey);
    LookupsOne(wrong, HybridPolicyKey);
    LookupsOne(b100, BatchSizeKey);
    LookupsOne(b100, HybridPolicyKey);
    CountConcat([wrong], [b100], BatchSizeKey);
    CountConcat([wrong], [b100], HybridPolicyKey);
    FindConcat([wrong], [b100], HybridPolicyKey);
  }

  /** With a valid policy, a batch_size value that does not parse is refused as BadValue. */
  lemma BadBatchSizeRejected(policyValue: string, batchValue: string, prior: QueryConfig)
    requires Lower(policyValue) == BatchesKey
    requires ParseBatchSize(batchValue).None?
    ensures Resolve([RawParam("HYBRID_POLICY", policyValue), RawParam("batch_size", batchValue)], Record(prior), QueryHybrid)
            == Rejected(BadValue)
  {
    RecordedTexts();
    var a, b := RawParam("HYBRID_POLICY", policyValue), RawParam("batch_size", batchValue);
    assert [a, b] == [a] + [b];
    LookupsOne(a, BatchSizeKey);
    LookupsOne(a, HybridPolicyKey);
    LookupsOne(b, BatchSizeKey);
    LookupsOne(b, HybridPolicyKey);
    CountConcat([a], [b], BatchSizeKey);
    CountConcat([a], [b], HybridPolicyKey);
    FindConcat([a], [b], BatchSizeKey);
    FindConcat([a], [b], HybridPolicyKey);
  }

  /** No number above INT64_MAX is a batch size, however it is written. */
  lemma TooLargeRejected(v: string, n: nat)
    requires n > Int64Max && Decimal.Parse(v) == Some(n)
    ensures ParseBatchSize(v).None?
  {
  }

  /** INT64_MAX + 1, written out, is not a batch size. */
  lemma AboveInt64MaxRejected()
    ensures ParseBatchSize("9223372036854775808").None?
  {
    assert Int64Max + 1 == 9223372036854775808;
    assert Decimal.ToDecimal(9223372036854775808) == "9223372036854775808" by {
      // The canonical text, one digit at a time.
      assert Decimal.ToDecimal(9) == "9";
      assert Decimal.ToDecimal(92) == "92";
      assert Decimal.ToDecimal(922) == "922";
      assert Decimal.ToDecimal(9223) == "9223";
      assert Decimal.ToDecimal(92233) == "92233";
      assert Decimal.ToDecimal(922337) == "922337";
      assert Decimal.ToDecimal(9223372) == "9223372";
      assert Decimal.ToDecimal(92233720) == "92233720";
      assert Decimal.ToDecimal(922337203) == "922337203";
      assert Decimal.ToDecimal(9223372036) == "9223372036";
      assert Decimal.ToDecimal(92233720368) == "92233720368";
      assert Decimal.ToDecimal(922337203685) == "922337203685";
      assert Decimal.ToDecimal(9223372036854) == "9223372036854";
      assert Decimal.ToDecimal(92233720368547) == "92233720368547";
      assert Decimal.ToDecimal(922337203685477) == "922337203685477";
      assert Decimal.ToDecimal(9223372036854775) == "9223372036854775";
      assert Decimal.ToDecimal(92233720368547758) == "92233720368547758";
      assert Decimal.ToDecimal(922337203685477580) == "922337203685477580";
    }
    Decimal.ParseToDecimal(Int64Max + 1);
    TooLargeRejected(Decimal.ToDecimal(Int64Max + 1), Int64Max + 1);
  }

  /** The batch_size texts the tests record as malformed, one above INT64_MAX among them. */
  lemma RecordedBadValues()
    ensures ParseBatchSize("not_a_number").None?
    ensures ParseBatchSize("9223372036854775808").None?
    ensures ParseBatchSize("-5").None?
    ensures ParseBatchSize("0").None?
    ensures ParseBatchSize("10f").None?
  {
    Decimal.ParseRejectsNonDigit("not_a_number", 0);
    Decimal.ParseRejectsNonDigit("-5", 0);
    Decimal.ParseRejectsNonDigit("10f", 2);
    assert Decimal.ValueOf("0") == 0;
    AboveInt64MaxRejected();
  }

  /** The outcomes the tests record for non-hybrid queries and for malformed batch sizes. */
  lemma RecordedRejections(prior: QueryConfig, kind: QueryType)
    requires kind != QueryHybrid
    ensures Resolve([RawParam("HYBRID_POLICY", "batches"), RawParam("batch_size", "100")], Record(prior), kind)
            == Rejected(InvalidPolicyNHybrid)
    ensures Resolve([RawParam("batch_size", "100")], Record(prior), kind) == Rejected(InvalidPolicyNHybrid)
    ensures forall v | v in ["not_a_number", "9223372036854775808", "-5", "0", "10f"] ::
              Resolve([RawParam("HYBRID_POLICY", "batches"), RawParam("batch_size", v)], Record(prior), QueryHybrid)
              == Rejected(BadValue)
  {
    RecordedTexts();
    RecordedOutcomes(prior);
    var ps := [RawParam("HYBRID_POLICY", "batches"), RawParam("batch_size", "100")];
    assert Recognised(ps[0]);
    NonHybridRejected(ps, prior, kind);
    NonHybridBeforeBadValue("batch_size", "100", prior, kind);
    RecordedBadValues();
    forall v | v in ["not_a_number", "9223372036854775808", "-5", "0", "10f"]
      ensures Resolve([RawParam("HYBRID_POLICY", "batches"), RawParam("batch_size", v)], Record(prior), QueryHybrid)
              == Rejected(BadValue)
    {
      BadBatchSizeRejected("batches", v, prior);
    }
  }
}
