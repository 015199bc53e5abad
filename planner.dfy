/** The projection plan: each requested schema position paired with the output slot that
    asked for it, sorted as `std::sort` sorts pairs (first component, then second). */
module Projection {

  /** (requested position among the live columns, output slot). */
  type Entry = (int, int)

  /** The pair order: lexicographic, strict. */
  predicate Less(a: Entry, b: Entry) {
    a.0 < b.0 || (a.0 == b.0 && a.1 < b.1)
  }

  predicate StrictlySorted(s: seq<Entry>) {
    forall p, q :: 0 <= p < q < |s| ==> Less(s[p], s[q])
  }

  predicate Distinct(s: seq<Entry>) {
    forall p, q :: 0 <= p < q < |s| ==> s[p] != s[q]
  }

  /** The unsorted plan: request `j` paired with slot `j`. */
  function Pairs(columnIndexes: seq<int>): seq<Entry> {
    seq(|columnIndexes|, j requires 0 <= j < |columnIndexes| => (columnIndexes[j], j))
  }

  /** `x` placed before the first entry of `s` that is not below it. */
  function Insert(x: Entry, s: seq<Entry>): seq<Entry> {
    if s == [] then [x]
    else if Less(s[0], x) then [s[0]] + Insert(x, s[1..])
    else [x] + s
  }

  /** The sorted plan. */
  function SortPairs(s: seq<Entry>): seq<Entry> {
    if s == [] then [] else Insert(s[0], SortPairs(s[1..]))
  }

  lemma {:induction false} InsertPermutes(x: Entry, s: seq<Entry>)
    ensures multiset(Insert(x, s)) == multiset(s) + multiset{x}
  {
    if s != [] && Less(s[0], x) {
      InsertPermutes(x, s[1..]);
      assert s == [s[0]] + s[1..];
    }
  }

  /** Sorting only reorders the plan. */
  lemma {:induction false} SortPermutes(s: seq<Entry>)
    ensures multiset(SortPairs(s)) == multiset(s)
  {
    if s != [] {
      SortPermutes(s[1..]);
      InsertPermutes(s[0], SortPairs(s[1..]));
      assert s == [s[0]] + s[1..];
    }
  }

  lemma {:induction false} InsertKeepsOrder(x: Entry, s: seq<Entry>)
    requires StrictlySorted(s) && x !in s
    ensures StrictlySorted(Insert(x, s))
  {
    if s != [] {
      var r := Insert(x, s);
      if Less(s[0], x) {
        var t := s[1..];
        assert StrictlySorted(t);
        assert x !in t;
        InsertKeepsOrder(x, t);
        InsertPermutes(x, t);
        var rest := Insert(x, t);
        assert r == [s[0]] + rest;
        forall q | 0 <= q < |rest|
          ensures Less(s[0], rest[q])
        {
          assert rest[q] in multiset(rest);
          if rest[q] != x {
            assert rest[q] in multiset(t);
            var k :| 0 <= k < |t| && t[k] == rest[q];
            assert s[k + 1] == t[k];
          }
        }
      } else {
        assert x != s[0];
        assert Less(x, s[0]);
        assert r == [x] + s;
        forall q | 0 < q < |r|
          ensures Less(x, r[q])
        {
          if q > 1 {
            assert Less(s[0], s[q - 1]);
          }
        }
      }
    }
  }

  /** Sorting a plan without repeated entries gives a strictly increasing plan. */
  lemma {:induction false} SortOrders(s: seq<Entry>)
    requires Distinct(s)
    ensures StrictlySorted(SortPairs(s))
  {
    if s != [] {
      var t := s[1..];
      assert Distinct(t);
      SortOrders(t);
      SortPermutes(t);
      forall k | 0 <= k < |t|
        ensures t[k] != s[0]
      {
        assert t[k] == s[k + 1];
      }
      assert s[0] !in multiset(SortPairs(t));
      InsertKeepsOrder(s[0], SortPairs(t));
    }
  }

  /** The sorted plan has one entry per request; entry `p` carries slot `plan[p].1`
      and that slot's request; every slot appears, and appears once. */
  lemma PlanCoversEachSlotOnce(columnIndexes: seq<int>)
    ensures var plan := SortPairs(Pairs(columnIndexes));
      |plan| == |columnIndexes| &&
      StrictlySorted(plan) &&
      multiset(plan) == multiset(Pairs(columnIndexes)) &&
      (forall p :: 0 <= p < |plan| ==>
         0 <= plan[p].1 < |columnIndexes| && plan[p].0 == columnIndexes[plan[p].1]) &&
      (forall j :: 0 <= j < |columnIndexes| ==> (columnIndexes[j], j) in plan) &&
      (forall p, q :: 0 <= p < |plan| && 0 <= q < |plan| && plan[p].1 == plan[q].1 ==> p == q)
  {
    var pairs := Pairs(columnIndexes);
    var plan := SortPairs(pairs);
    SortPermutes(pairs);
    assert |plan| == |multiset(plan)| == |multiset(pairs)| == |pairs|;
    SortOrders(pairs);
    forall p | 0 <= p < |plan|
      ensures 0 <= plan[p].1 < |columnIndexes| && plan[p].0 == columnIndexes[plan[p].1]
    {
      assert plan[p] in multiset(plan);
      assert plan[p] in multiset(pairs);
      var j :| 0 <= j < |pairs| && pairs[j] == plan[p];
    }
    forall j | 0 <= j < |columnIndexes|
      ensures (columnIndexes[j], j) in plan
    {
      assert pairs[j] in multiset(pairs);
      assert pairs[j] in multiset(plan);
    }
    forall p, q | 0 <= p < q < |plan|
      ensures plan[p].1 != plan[q].1
    {
      assert Less(plan[p], plan[q]);
    }
  }

  /** Builds the plan as the decoder does: one pair per request, pushed in request
      order, then sorted. */
  method BuildPlan(columnIndexes: seq<int>) returns (plan: seq<Entry>)
    ensures plan == SortPairs(Pairs(columnIndexes))
    ensures |plan| == |columnIndexes| && StrictlySorted(plan)
    ensures forall p :: 0 <= p < |plan| ==>
      0 <= plan[p].1 < |columnIndexes| && plan[p].0 == columnIndexes[plan[p].1]
    ensures forall j :: 0 <= j < |columnIndexes| ==> (columnIndexes[j], j) in plan
  {
    plan := [];
    var i := 0;
    while i < |columnIndexes|
      invariant 0 <= i <= |columnIndexes|
      invariant plan == Pairs(columnIndexes)[..i]
    {
      plan := plan + [(columnIndexes[i], i)];
      i := i + 1;
    }
    assert plan == Pairs(columnIndexes);
    plan := SortPairs(plan);
    PlanCoversEachSlotOnce(columnIndexes);
  }

  /** One matching decision of the linear pass: the next unmet request `plan[n]` matches
      the live column numbered `m` or not. `m` always advances; on a match `n` advances and
      the output slot becomes the request's slot; otherwise the column is to be skipped. */
  method IsSkipOnly(plan: seq<Entry>, n: int, m: int, recordIndex: int)
    returns (skip: bool, n': int, m': int, recordIndex': int)
    requires 0 <= n < |plan|
    ensures m' == m + 1
    ensures skip <==> plan[n].0 != m
    ensures n' == if skip then n else n + 1
    ensures recordIndex' == if skip then recordIndex else plan[n].1
  {
    var first := plan[n].0;
    var second := plan[n].1;
    m' := m + 1;
    if first == m {
      recordIndex' := second;
      n' := n + 1;
      skip := false;
    } else {
      recordIndex' := recordIndex;
      n' := n;
      skip := true;
    }
  }
}
