/** Totals over all registered handlers (pkg/appsrv/stats.go), computed by walking every route tree. */
module Statistics {
  import opened Basics
  import opened RoutePatterns
  import opened RouteTree
  import opened RouteTable

  datatype Counter = Counter(hit: int, duration: real)

  /** The request counters of a handler, by status class. */
  datatype Counters = Counters(c2xx: Counter, c4xx: Counter, c5xx: Counter)

  const ZERO := Counters(Counter(0, 0.0), Counter(0, 0.0), Counter(0, 0.0))

  function Add(a: Counter, b: Counter): Counter {
    Counter(a.hit + b.hit, a.duration + b.duration)
  }

  function Plus(a: Counters, b: Counters): Counters {
    Counters(Add(a.c2xx, b.c2xx), Add(a.c4xx, b.c4xx), Add(a.c5xx, b.c5xx))
  }

  function Sum<D>(xs: seq<(Key, D)>, counters: D -> Counters): Counters {
    if xs == [] then ZERO else Plus(Sum(xs[..|xs| - 1], counters), counters(xs[|xs| - 1].1))
  }

  /** The handlers of a registration list in the order they were registered. */
  function Entries<D>(regs: seq<Reg<D>>): seq<(Key, D)> {
    if regs == [] then []
    else
      var init, last := Entries(regs[..|regs| - 1]), regs[|regs| - 1];
      if last.data.Some? then init + [(last.key, last.data.value)] else init
  }

  /** The sums over several registration lists. */
  function SumAll<D>(lists: seq<seq<Reg<D>>>, counters: D -> Counters): Counters {
    if lists == [] then ZERO
    else Plus(SumAll(lists[..|lists| - 1], counters), Sum(Entries(lists[|lists| - 1]), counters))
  }

  lemma PlusAssoc(a: Counters, b: Counters, c: Counters)
    ensures Plus(a, Plus(b, c)) == Plus(Plus(a, b), c)
  {
  }

  lemma {:induction false} SumAllStep<D>(lists: seq<seq<Reg<D>>>, i: nat, default: Counters, counters: D -> Counters)
    requires i < |lists|
    ensures Plus(default, SumAll(lists[..i + 1], counters))
         == Plus(Plus(default, SumAll(lists[..i], counters)), Sum(Entries(lists[i]), counters))
  {
    assert lists[..i + 1][..i] == lists[..i];
    PlusAssoc(default, SumAll(lists[..i], counters), Sum(Entries(lists[i]), counters));
  }

  // ---- The totals, field by field ---------------------------------------------

  type Hits = Counters -> int
  type Time = Counters -> real

  const HIT_2XX: Hits := (c: Counters) => c.c2xx.hit
  const HIT_4XX: Hits := (c: Counters) => c.c4xx.hit
  const HIT_5XX: Hits := (c: Counters) => c.c5xx.hit
  const TIME_2XX: Time := (c: Counters) => c.c2xx.duration
  const TIME_4XX: Time := (c: Counters) => c.c4xx.duration
  const TIME_5XX: Time := (c: Counters) => c.c5xx.duration

  /** The sum of one field over the handlers of a list, as numbers are added. */
  function HitSum<D>(regs: seq<Reg<D>>, counters: D -> Counters, field: Hits): int {
    if regs == [] then 0
    else
      var last := regs[|regs| - 1].data;
      HitSum(regs[..|regs| - 1], counters, field) + if last.Some? then field(counters(last.value)) else 0
  }

  function TimeSum<D>(regs: seq<Reg<D>>, counters: D -> Counters, field: Time): real {
    if regs == [] then 0.0
    else
      var last := regs[|regs| - 1].data;
      TimeSum(regs[..|regs| - 1], counters, field) + if last.Some? then field(counters(last.value)) else 0.0
  }

  function HitSumAll<D>(lists: seq<seq<Reg<D>>>, counters: D -> Counters, field: Hits): int {
    if lists == [] then 0
    else HitSumAll(lists[..|lists| - 1], counters, field) + HitSum(lists[|lists| - 1], counters, field)
  }

  function TimeSumAll<D>(lists: seq<seq<Reg<D>>>, counters: D -> Counters, field: Time): real {
    if lists == [] then 0.0
    else TimeSumAll(lists[..|lists| - 1], counters, field) + TimeSum(lists[|lists| - 1], counters, field)
  }

  /** Each field of the total is that field of the default plus its sum over all handlers of all lists. */
  ghost predicate Adds<D>(total: Counters, default: Counters, lists: seq<seq<Reg<D>>>, counters: D -> Counters) {
    && total.c2xx.hit == default.c2xx.hit + HitSumAll(lists, counters, HIT_2XX)
    && total.c4xx.hit == default.c4xx.hit + HitSumAll(lists, counters, HIT_4XX)
    && total.c5xx.hit == default.c5xx.hit + HitSumAll(lists, counters, HIT_5XX)
    && total.c2xx.duration == default.c2xx.duration + TimeSumAll(lists, counters, TIME_2XX)
    && total.c4xx.duration == default.c4xx.duration + TimeSumAll(lists, counters, TIME_4XX)
    && total.c5xx.duration == default.c5xx.duration + TimeSumAll(lists, counters, TIME_5XX)
  }

  lemma {:induction false} SumEntriesSnoc<D>(regs: seq<Reg<D>>, counters: D -> Counters)
    requires regs != []
    ensures var before, last := Sum(Entries(regs[..|regs| - 1]), counters), regs[|regs| - 1].data;
            Sum(Entries(regs), counters) == if last.Some? then Plus(before, counters(last.value)) else before
  {
    var all, init := Entries(regs), Entries(regs[..|regs| - 1]);
    if regs[|regs| - 1].data.Some? { assert all[..|all| - 1] == init; }
  }

  /** Adding counters adds this field. */
  ghost predicate AddsHits(field: Hits) {
    field(ZERO) == 0 && forall a, b :: field(Plus(a, b)) == field(a) + field(b)
  }

  ghost predicate AddsTime(field: Time) {
    field(ZERO) == 0.0 && forall a, b :: field(Plus(a, b)) == field(a) + field(b)
  }

  lemma EveryFieldAdds()
    ensures AddsHits(HIT_2XX) && AddsHits(HIT_4XX) && AddsHits(HIT_5XX)
    ensures AddsTime(TIME_2XX) && AddsTime(TIME_4XX) && AddsTime(TIME_5XX)
  {
  }

  lemma {:induction false} HitsOfSum<D>(regs: seq<Reg<D>>, counters: D -> Counters, field: Hits)
    requires AddsHits(field)
    ensures field(Sum(Entries(regs), counters)) == HitSum(regs, counters, field)
  {
    if regs != [] {
      HitsOfSum(regs[..|regs| - 1], counters, field);
      SumEntriesSnoc(regs, counters);
    }
  }

  lemma {:induction false} TimeOfSum<D>(regs: seq<Reg<D>>, counters: D -> Counters, field: Time)
    requires AddsTime(field)
    ensures field(Sum(Entries(regs), counters)) == TimeSum(regs, counters, field)
  {
    if regs != [] {
      TimeOfSum(regs[..|regs| - 1], counters, field);
      SumEntriesSnoc(regs, counters);
    }
  }

  lemma {:induction false} HitsOfAll<D>(lists: seq<seq<Reg<D>>>, counters: D -> Counters, field: Hits)
    requires AddsHits(field)
    ensures field(SumAll(lists, counters)) == HitSumAll(lists, counters, field)
  {
    if lists != [] {
      HitsOfAll(lists[..|lists| - 1], counters, field);
      HitsOfSum(lists[|lists| - 1], counters, field);
    }
  }

  lemma {:induction false} TimeOfAll<D>(lists: seq<seq<Reg<D>>>, counters: D -> Counters, field: Time)
    requires AddsTime(field)
    ensures field(SumAll(lists, counters)) == TimeSumAll(lists, counters, field)
  {
    if lists != [] {
      TimeOfAll(lists[..|lists| - 1], counters, field);
      TimeOfSum(lists[|lists| - 1], counters, field);
    }
  }

  lemma TotalAdds<D>(default: Counters, lists: seq<seq<Reg<D>>>, counters: D -> Counters)
    ensures Adds(Plus(default, SumAll(lists, counters)), default, lists, counters)
  {
    EveryFieldAdds();
    HitsOfAll(lists, counters, HIT_2XX);
    HitsOfAll(lists, counters, HIT_4XX);
    HitsOfAll(lists, counters, HIT_5XX);
    TimeOfAll(lists, counters, TIME_2XX);
    TimeOfAll(lists, counters, TIME_4XX);
    TimeOfAll(lists, counters, TIME_5XX);
  }

  /** One more handler raises each field of the totals by exactly its own. */
  lemma OneMoreHandler<D>(regs: seq<Reg<D>>, r: Reg<D>, counters: D -> Counters, default: Counters, before: Counters, after: Counters)
    requires r.data.Some? && Adds(before, default, [regs], counters) && Adds(after, default, [regs + [r]], counters)
    ensures var own := counters(r.data.value);
      && after.c2xx == Counter(before.c2xx.hit + own.c2xx.hit, before.c2xx.duration + own.c2xx.duration)
      && after.c4xx == Counter(before.c4xx.hit + own.c4xx.hit, before.c4xx.duration + own.c4xx.duration)
      && after.c5xx == Counter(before.c5xx.hit + own.c5xx.hit, before.c5xx.duration + own.c5xx.duration)
  {
    assert (regs + [r])[..|regs|] == regs;
    OneList(regs, counters);
    OneList(regs + [r], counters);
  }

  lemma OneList<D>(regs: seq<Reg<D>>, counters: D -> Counters)
    ensures forall field :: HitSumAll([regs], counters, field) == HitSum(regs, counters, field)
    ensures forall field :: TimeSumAll([regs], counters, field) == TimeSum(regs, counters, field)
  {
    assert [regs][..0] == [];
  }

  lemma AddsOne<D>(default: Counters, regs: seq<Reg<D>>, counters: D -> Counters)
    ensures Adds(Plus(default, Sum(Entries(regs), counters)), default, [regs], counters)
  {
    TotalAdds(default, [regs], counters);
    assert [regs][..0] == [];
    assert SumAll([regs], counters) == Sum(Entries(regs), counters);
  }

  /** StatisticHandler: the default handler's counters plus those of every entry of every method's tree. */
  method AllTotals<D(!new)>(tables: seq<Radix<D>>, ghost lists: seq<seq<Reg<D>>>, default: Counters, counters: D -> Counters)
    returns (total: Counters)
    requires |lists| == |tables|
    requires forall i | 0 <= i < |tables| :: tables[i].Valid() && tables[i].meaning.regs == lists[i]
    ensures total == Plus(default, SumAll(lists, counters)) && Adds(total, default, lists, counters)
  {
    TotalAdds(default, lists, counters);
    total := default;
    for i := 0 to |tables|
      invariant total == Plus(default, SumAll(lists[..i], counters))
    {
      SumAllStep(lists, i, default, counters);
      total := Totals(tables[i], total, counters);
    }
    assert lists[..|lists|] == lists;
  }

  /** One tree: the counters so far plus those of every entry the walk visits. */
  method Totals<D(!new)>(table: Radix<D>, default: Counters, counters: D -> Counters) returns (total: Counters)
    requires table.Valid()
    ensures total == Plus(default, Sum(Entries(table.meaning.regs), counters))
    ensures Adds(total, default, [table.meaning.regs], counters)
  {
    AddsOne(default, table.meaning.regs, counters);
    var visited := table.Walk();
    total := AddUp(visited, default, counters);
    EntriesListed(table.meaning.regs);
    SumIgnoresOrder(visited, Entries(table.meaning.regs), table.meaning.regs, counters);
  }

  /** doStatsHandler, once for each visited entry. */
  method AddUp<D>(visited: seq<(Key, D)>, default: Counters, counters: D -> Counters) returns (total: Counters)
    ensures total == Plus(default, Sum(visited, counters))
  {
    total := default;
    for i := 0 to |visited|
      invariant total == Plus(default, Sum(visited[..i], counters))
    {
      assert visited[..i + 1][..i] == visited[..i];
      total := Plus(total, counters(visited[i].1));
    }
    assert visited[..|visited|] == visited;
  }

  // ---- The walk and the registration list have the same entries -------------

  /** In an accepted list every handler is listed once, under the key it is found at. */
  lemma {:induction false} EntriesListed<D(!new)>(regs: seq<Reg<D>>)
    requires Accepted(regs)
    ensures Lists(Entries(regs), regs, [])
  {
    if regs != [] {
      var init, last := regs[..|regs| - 1], regs[|regs| - 1];
      EntriesListed(init);
      forall k, d ensures (k, d) in Entries(regs) <==> Slot(regs, k).0 == Some(d) {
        assert (k, d) in Entries(init) <==> Slot(init, k).0 == Some(d);
      }
      forall i | 0 <= i < |Entries(init)| ensures Entries(init)[i].0 != last.key {
        assert (Entries(init)[i].0, Entries(init)[i].1) in Entries(init);
      }
    }
  }

  lemma SumIgnoresOrder<D(!new)>(a: seq<(Key, D)>, b: seq<(Key, D)>, regs: seq<Reg<D>>, counters: D -> Counters)
    requires Lists(a, regs, []) && Lists(b, regs, [])
    ensures Sum(a, counters) == Sum(b, counters)
  {
    forall x ensures x in a <==> x in b {
      assert (x.0, x.1) in a <==> (x.0, x.1) in b;
    }
    assert NoDup(a) && NoDup(b);
    SumOfSameElements(a, b, counters);
  }

  lemma {:induction false} SumOfSameElements<D(!new)>(a: seq<(Key, D)>, b: seq<(Key, D)>, counters: D -> Counters)
    requires NoDup(a) && NoDup(b) && forall x :: x in a <==> x in b
    ensures Sum(a, counters) == Sum(b, counters)
    decreases |a|
  {
    if a == [] {
      NoDupCardinality(b);
      assert Elements(b) == Elements(a);
    } else {
      var init, last := a[..|a| - 1], a[|a| - 1];
      assert last in b;
      var i :| 0 <= i < |b| && b[i] == last;
      var rest := b[..i] + b[i + 1..];
      assert NoDup(init);
      forall j, k | 0 <= j < k < |rest| ensures rest[j] != rest[k] {
        assert rest[j] == b[if j < i then j else j + 1] && rest[k] == b[if k < i then k else k + 1];
      }
      forall x ensures x in init <==> x in rest {
        RemovedFrom(a, |a| - 1, x);
        RemovedFrom(b, i, x);
        assert a[..|a| - 1] + a[|a|..] == init;
      }
      SumOfSameElements(init, rest, counters);
      SumWithout(b, i, counters);
    }
  }

  lemma RemovedFrom<X>(s: seq<X>, i: nat, x: X)
    requires NoDup(s) && i < |s|
    ensures x in s[..i] + s[i + 1..] <==> x in s && x != s[i]
  {
  }

  lemma {:induction false} SumWithout<D>(s: seq<(Key, D)>, i: nat, counters: D -> Counters)
    requires i < |s|
    ensures Sum(s, counters) == Plus(Sum(s[..i] + s[i + 1..], counters), counters(s[i].1))
    decreases |s|
  {
    if i == |s| - 1 {
      assert s[..i] + s[i + 1..] == s[..|s| - 1];
    } else {
      var init, rest := s[..|s| - 1], s[..i] + s[i + 1..];
      SumWithout(init, i, counters);
      assert rest[..|rest| - 1] == init[..i] + init[i + 1..];
      assert rest[|rest| - 1] == s[|s| - 1];
    }
  }
}
