/**
  The analysis behind the producers-intervals report
  (`ProducerIntervalService.getProducersIntervals`): group the years of the
  winning movies by producer, pair each producer's consecutive wins, and
  report the pairs with the smallest and with the largest interval. The
  winners are given as the sequence the repository returns.
 */
module ProducerIntervalService {
  import opened JavaText
  import opened Model

  // ===========================================================================
  // Grouping the years of the wins by producer
  // ===========================================================================

  /** `producerWins.computeIfAbsent(name, ...).add(year)` for each of `names`, in order. */
  function AddWins(wins: map<string, seq<Int32>>, year: Int32, names: seq<string>): (grouped: map<string, seq<Int32>>)
    decreases |names|
  {
    if |names| == 0 then wins
    else
      var w := AddWins(wins, year, names[..|names| - 1]);
      var name := names[|names| - 1];
      w[name := (if name in w then w[name] else []) + [year]]
  }

  /** The `producerWins` map after the first loop has gone over `winners`. */
  function GroupBy(winners: seq<Movie>): (wins: map<string, seq<Int32>>)
  {
    if |winners| == 0 then map[]
    else
      var movie := winners[|winners| - 1];
      AddWins(GroupBy(winners[..|winners| - 1]), movie.year, movie.producers)
  }

  /** The first loop of `getProducersIntervals`. */
  method GroupWins(winners: seq<Movie>) returns (wins: map<string, seq<Int32>>)
    ensures wins == GroupBy(winners)
  {
    wins := map[];
    for i := 0 to |winners|
      invariant wins == GroupBy(winners[..i])
    {
      var movie := winners[i];
      assert winners[..i + 1][..i] == winners[..i];
      for j := 0 to |movie.producers|
        invariant wins == AddWins(GroupBy(winners[..i]), movie.year, movie.producers[..j])
      {
        var producer := movie.producers[j];
        assert movie.producers[..j + 1][..j] == movie.producers[..j];
        var years := if producer in wins then wins[producer] else [];
        wins := wins[producer := years + [movie.year]];
      }
      assert movie.producers[..|movie.producers|] == movie.producers;
    }
    assert winners[..|winners|] == winners;
  }

  // ---------------------------------------------------------------------------
  // What the map holds
  // ---------------------------------------------------------------------------

  /** How many times `name` is listed in `names`. */
  function Count(name: string, names: seq<string>): nat
  {
    if |names| == 0 then 0
    else Count(name, names[..|names| - 1]) + (if names[|names| - 1] == name then 1 else 0)
  }

  function Repeat(year: Int32, k: nat): (r: seq<Int32>)
    ensures |r| == k && forall i :: 0 <= i < k ==> r[i] == year
  {
    if k == 0 then [] else Repeat(year, k - 1) + [year]
  }

  /**
    The years of the winning movies that list `producer`, once per listing,
    in the order of the winners.
   */
  function YearsOf(winners: seq<Movie>, producer: string): seq<Int32>
  {
    if |winners| == 0 then []
    else
      var movie := winners[|winners| - 1];
      YearsOf(winners[..|winners| - 1], producer) + Repeat(movie.year, Count(producer, movie.producers))
  }

  /** Some winning movie lists `producer`. */
  ghost predicate Listed(winners: seq<Movie>, producer: string)
  {
    exists i :: 0 <= i < |winners| && producer in winners[i].producers
  }

  lemma {:induction false} CountPositive(name: string, names: seq<string>)
    ensures Count(name, names) > 0 <==> name in names
    decreases |names|
  {
    if |names| > 0 {
      var init := names[..|names| - 1];
      CountPositive(name, init);
      assert names == init + [names[|names| - 1]];
    }
  }

  lemma {:induction false} AddWinsYears(wins: map<string, seq<Int32>>, year: Int32, names: seq<string>, p: string)
    ensures p in AddWins(wins, year, names) <==> p in wins || p in names
    ensures p in AddWins(wins, year, names) ==>
              AddWins(wins, year, names)[p] == (if p in wins then wins[p] else []) + Repeat(year, Count(p, names))
    decreases |names|
  {
    if |names| > 0 {
      var init := names[..|names| - 1];
      AddWinsYears(wins, year, init, p);
      CountPositive(p, init);
      assert names == init + [names[|names| - 1]];
      if p == names[|names| - 1] {
        assert Repeat(year, Count(p, names)) == Repeat(year, Count(p, init)) + [year];
      }
    }
  }

  /**
    The map has an entry exactly for the producers some winner lists, and
    the entry holds that producer's win years, once per listing, in the
    order of the winners.
   */
  lemma {:induction false} GroupByYears(winners: seq<Movie>, p: string)
    ensures p in GroupBy(winners) <==> Listed(winners, p)
    ensures p in GroupBy(winners) ==> GroupBy(winners)[p] == YearsOf(winners, p)
    ensures p !in GroupBy(winners) ==> YearsOf(winners, p) == []
    decreases |winners|
  {
    if |winners| > 0 {
      var init := winners[..|winners| - 1];
      var movie := winners[|winners| - 1];
      GroupByYears(init, p);
      AddWinsYears(GroupBy(init), movie.year, movie.producers, p);
      CountPositive(p, movie.producers);
      if Listed(winners, p) && !(p in movie.producers) {
        var i :| 0 <= i < |winners| && p in winners[i].producers;
        assert init[i] == winners[i];
      }
      if Listed(init, p) {
        var i :| 0 <= i < |init| && p in init[i].producers;
        assert winners[i] == init[i];
      }
    }
  }

  // ===========================================================================
  // Sorting a producer's years
  // ===========================================================================

  predicate IsSorted(ys: seq<Int32>)
  {
    forall i, j :: 0 <= i < j < |ys| ==> ys[i] <= ys[j]
  }

  function Insert(y: Int32, ys: seq<Int32>): (r: seq<Int32>)
    requires IsSorted(ys)
    ensures IsSorted(r) && multiset(r) == multiset(ys) + multiset{y}
    ensures |r| > 0 && (r[0] == y || (|ys| > 0 && r[0] == ys[0]))
  {
    if |ys| == 0 || y <= ys[0] then
      ConsSorted(y, ys);
      [y] + ys
    else
      SortedTail(ys);
      var rest := Insert(y, ys[1..]);
      assert ys == [ys[0]] + ys[1..];
      assert |ys| > 1 ==> ys[0] <= ys[1];
      ConsSorted(ys[0], rest);
      [ys[0]] + rest
  }

  /** A year no later than the head of a sorted list can go in front of it. */
  lemma ConsSorted(x: Int32, ys: seq<Int32>)
    requires IsSorted(ys) && (|ys| == 0 || x <= ys[0])
    ensures IsSorted([x] + ys)
  {
    forall i, j | 0 <= i < j < |ys| + 1
      ensures ([x] + ys)[i] <= ([x] + ys)[j]
    {
      if i > 0 {
        assert ys[i - 1] <= ys[j - 1];
      } else {
        assert ys[0] <= ys[j - 1];
      }
    }
  }

  /** `years.stream().sorted()`: the years in ascending order, none lost or added. */
  function SortYears(ys: seq<Int32>): (r: seq<Int32>)
    ensures IsSorted(r) && multiset(r) == multiset(ys)
  {
    if |ys| == 0 then []
    else
      assert ys == [ys[0]] + ys[1..];
      Insert(ys[0], SortYears(ys[1..]))
  }

  lemma SortedHeadIsLeast(a: seq<Int32>, y: Int32)
    requires IsSorted(a) && y in a
    ensures a[0] <= y
  {
    var i :| 0 <= i < |a| && a[i] == y;
    assert a[0] <= a[i];
  }

  lemma SortedTail(a: seq<Int32>)
    requires IsSorted(a) && |a| > 0
    ensures IsSorted(a[1..])
  {
    forall i, j | 0 <= i < j < |a| - 1
      ensures a[1..][i] <= a[1..][j]
    {
      assert a[1..][i] == a[i + 1] && a[1..][j] == a[j + 1];
    }
  }

  lemma MultisetOfTail(a: seq<Int32>)
    requires |a| > 0
    ensures multiset(a[1..]) == multiset(a) - multiset{a[0]}
  {
    assert a == [a[0]] + a[1..];
  }

  /** There is only one sorted arrangement of a multiset of years. */
  lemma {:induction false} SortedIsUnique(a: seq<Int32>, b: seq<Int32>)
    requires IsSorted(a) && IsSorted(b) && multiset(a) == multiset(b)
    ensures a == b
    decreases |a|
  {
    if |a| > 0 {
      assert |b| == |multiset(b)| == |multiset(a)| == |a|;
      assert a[0] in multiset(b) && b[0] in multiset(a);
      SortedHeadIsLeast(a, b[0]);
      SortedHeadIsLeast(b, a[0]);
      var x := a[0];
      assert x == b[0];
      MultisetOfTail(a);
      MultisetOfTail(b);
      assert multiset(a[1..]) == multiset(a) - multiset{x} == multiset(b) - multiset{x} == multiset(b[1..]);
      SortedTail(a);
      SortedTail(b);
      SortedIsUnique(a[1..], b[1..]);
      forall i | 0 < i < |a|
        ensures a[i] == b[i]
      {
        assert a[i] == a[1..][i - 1] && b[i] == b[1..][i - 1];
      }
    }
  }

  // ===========================================================================
  // Pairing consecutive wins
  // ===========================================================================

  /** The entries the inner loop emits for `producer` from its sorted years. */
  function Pairs(producer: string, ys: seq<Int32>): (es: seq<ProducerIntervalDto>)
    ensures |es| == if |ys| < 2 then 0 else |ys| - 1
  {
    if |ys| < 2 then []
    else
      var previous := ys[|ys| - 2];
      var following := ys[|ys| - 1];
      Pairs(producer, ys[..|ys| - 1]) + [ProducerIntervalDto(producer, Sub32(following, previous), previous, following)]
  }

  /** The entries of one producer: its years sorted, then paired. */
  function EntriesFor(producer: string, years: seq<Int32>): (es: seq<ProducerIntervalDto>)
  {
    Pairs(producer, SortYears(years))
  }

  /** Entry `i` pairs the years at `i` and `i + 1`. */
  lemma {:induction false} PairsAt(producer: string, ys: seq<Int32>, i: nat)
    requires i + 1 < |ys|
    ensures Pairs(producer, ys)[i]
            == ProducerIntervalDto(producer, Sub32(ys[i + 1], ys[i]), ys[i], ys[i + 1])
    decreases |ys|
  {
    if i + 2 < |ys| {
      var init := ys[..|ys| - 1];
      PairsAt(producer, init, i);
    }
  }

  /**
    Every entry of a producer pairs two consecutive years of its sorted
    list: the earlier one first, both among its wins, no win strictly
    between them, and the interval is their difference in `int` arithmetic.
   */
  lemma PairFacts(producer: string, ys: seq<Int32>, e: ProducerIntervalDto)
    requires IsSorted(ys) && e in Pairs(producer, ys)
    ensures e.producer == producer
    ensures e.previousWin in ys && e.followingWin in ys && e.previousWin <= e.followingWin
    ensures forall y :: y in ys ==> !(e.previousWin < y < e.followingWin)
    ensures e.interval == Sub32(e.followingWin, e.previousWin)
    ensures e.followingWin - e.previousWin <= MaxInt32 ==> e.interval == e.followingWin - e.previousWin
  {
    var i :| 0 <= i < |Pairs(producer, ys)| && Pairs(producer, ys)[i] == e;
    PairsAt(producer, ys, i);
    forall y | y in ys
      ensures !(e.previousWin < y < e.followingWin)
    {
      var k :| 0 <= k < |ys| && ys[k] == y;
      if k <= i {
        assert ys[k] <= ys[i];
      } else {
        assert ys[i + 1] <= ys[k];
      }
    }
  }

  /** Every pair of consecutive years of a producer becomes an entry. */
  lemma PairsComplete(producer: string, ys: seq<Int32>, i: nat)
    requires i + 1 < |ys|
    ensures ProducerIntervalDto(producer, Sub32(ys[i + 1], ys[i]), ys[i], ys[i + 1]) in Pairs(producer, ys)
  {
    PairsAt(producer, ys, i);
  }

  // ===========================================================================
  // The second loop: the entries of every producer, in the map's order
  // ===========================================================================

  /**
    `order` lists each key of the map once: an order in which `entrySet()`
    may visit them. `HashMap` does not fix one, so the model allows any.
   */
  ghost predicate IsKeyOrder(order: seq<string>, keys: set<string>)
  {
    && (forall i, j :: 0 <= i < j < |order| ==> order[i] != order[j])
    && (forall p :: p in order <==> p in keys)
  }

  /** The entries of the producers in `order`, one producer after the other. */
  function EntriesInOrder(order: seq<string>, wins: map<string, seq<Int32>>): (es: seq<ProducerIntervalDto>)
    requires forall p :: p in order ==> p in wins
  {
    if |order| == 0 then []
    else
      var p := order[|order| - 1];
      EntriesInOrder(order[..|order| - 1], wins) + EntriesFor(p, wins[p])
  }

  lemma EntriesInOrderSnoc(order: seq<string>, p: string, wins: map<string, seq<Int32>>)
    requires forall q :: q in order ==> q in wins
    requires p in wins
    ensures EntriesInOrder(order + [p], wins) == EntriesInOrder(order, wins) + EntriesFor(p, wins[p])
  {
    assert (order + [p])[..|order|] == order;
  }

  lemma PairsSnoc(producer: string, ys: seq<Int32>, i: nat)
    requires 1 <= i < |ys|
    ensures Pairs(producer, ys[..i + 1])
            == Pairs(producer, ys[..i]) + [ProducerIntervalDto(producer, Sub32(ys[i], ys[i - 1]), ys[i - 1], ys[i])]
  {
    assert ys[..i + 1][..i] == ys[..i];
  }

  /**
    The inner `for` loop of `getProducersIntervals`: one entry per pair of
    consecutive sorted years, appended to `intervals`.
   */
  method AppendPairs(intervals: seq<ProducerIntervalDto>, producer: string, years: seq<Int32>)
    returns (r: seq<ProducerIntervalDto>)
    ensures r == intervals + Pairs(producer, years)
  {
    r := intervals;
    if |years| >= 2 {
      for i := 1 to |years|
        invariant r == intervals + Pairs(producer, years[..i])
      {
        var previousWin := years[i - 1];
        var followingWin := years[i];
        var interval := Sub32(followingWin, previousWin);
        PairsSnoc(producer, years, i);
        r := r + [ProducerIntervalDto(producer, interval, previousWin, followingWin)];
      }
      assert years[..|years|] == years;
    }
  }

  /**
    The keys visited so far, `order`, and those still to visit, `remaining`,
    split the map's keys without repetition.
   */
  ghost predicate VisitSplit(order: seq<string>, remaining: set<string>, keys: set<string>)
  {
    && remaining <= keys
    && (forall i, j :: 0 <= i < j < |order| ==> order[i] != order[j])
    && (forall p :: p in order <==> p in keys && p !in remaining)
  }

  /** Visiting one more key keeps the split. */
  lemma VisitStep(order: seq<string>, remaining: set<string>, keys: set<string>, p: string)
    requires VisitSplit(order, remaining, keys)
    requires p in remaining
    ensures VisitSplit(order + [p], remaining - {p}, keys)
    ensures |remaining - {p}| < |remaining|
  {
  }

  /** Once no key remains, the visited keys are an order of all of them. */
  lemma VisitDone(order: seq<string>, keys: set<string>)
    requires VisitSplit(order, {}, keys)
    ensures IsKeyOrder(order, keys)
  {
  }

  /** The second loop of `getProducersIntervals`, over `producerWins.entrySet()`. */
  method CollectIntervals(wins: map<string, seq<Int32>>) returns (intervals: seq<ProducerIntervalDto>)
    ensures exists order :: IsKeyOrder(order, wins.Keys) && intervals == EntriesInOrder(order, wins)
  {
    intervals := [];
    var remaining := wins.Keys;
    ghost var order: seq<string> := [];
    while remaining != {}
      invariant VisitSplit(order, remaining, wins.Keys)
      invariant intervals == EntriesInOrder(order, wins)
      decreases |remaining|
    {
      var producer :| producer in remaining;
      var years := SortYears(wins[producer]);
      intervals := AppendPairs(intervals, producer, years);
      EntriesInOrderSnoc(order, producer, wins);
      VisitStep(order, remaining, wins.Keys, producer);
      order := order + [producer];
      remaining := remaining - {producer};
    }
    VisitDone(order, wins.Keys);
  }

  // ===========================================================================
  // The smallest and the largest interval
  // ===========================================================================

  /** `intervals.stream().mapToInt(getInterval).min()` on a non-empty list. */
  function MinInterval(es: seq<ProducerIntervalDto>): (m: Int32)
    requires |es| > 0
    ensures exists i :: 0 <= i < |es| && es[i].interval == m
    ensures forall i :: 0 <= i < |es| ==> m <= es[i].interval
  {
    if |es| == 1 then es[0].interval
    else
      var rest := MinInterval(es[1..]);
      assert forall i :: 1 <= i < |es| ==> es[i] == es[1..][i - 1];
      if es[0].interval <= rest then es[0].interval else rest
  }

  /** `intervals.stream().mapToInt(getInterval).max()` on a non-empty list. */
  function MaxInterval(es: seq<ProducerIntervalDto>): (m: Int32)
    requires |es| > 0
    ensures exists i :: 0 <= i < |es| && es[i].interval == m
    ensures forall i :: 0 <= i < |es| ==> es[i].interval <= m
  {
    if |es| == 1 then es[0].interval
    else
      var rest := MaxInterval(es[1..]);
      assert forall i :: 1 <= i < |es| ==> es[i] == es[1..][i - 1];
      if rest <= es[0].interval then es[0].interval else rest
  }

  /** `r` is `es` with some entries left out, the rest in their order. */
  predicate IsSubsequence(r: seq<ProducerIntervalDto>, es: seq<ProducerIntervalDto>)
    decreases |es|
  {
    |r| == 0
    || (|es| > 0
        && ((r[0] == es[0] && IsSubsequence(r[1..], es[1..])) || IsSubsequence(r, es[1..])))
  }

  /** `intervals.stream().filter(dto -> dto.getInterval() == v).toList()`. */
  function WithInterval(es: seq<ProducerIntervalDto>, v: Int32): (r: seq<ProducerIntervalDto>)
    ensures forall e :: e in r <==> e in es && e.interval == v
  {
    if |es| == 0 then []
    else
      assert es == [es[0]] + es[1..];
      (if es[0].interval == v then [es[0]] else []) + WithInterval(es[1..], v)
  }

  /** The filter keeps the matching entries in the order of the stream. */
  lemma {:induction false} WithIntervalInOrder(es: seq<ProducerIntervalDto>, v: Int32)
    ensures IsSubsequence(WithInterval(es, v), es)
    decreases |es|
  {
    if |es| > 0 {
      var rest := WithInterval(es[1..], v);
      WithIntervalInOrder(es[1..], v);
      if es[0].interval == v {
        var r := [es[0]] + rest;
        assert WithInterval(es, v) == r && r[0] == es[0] && r[1..] == rest;
      } else {
        assert WithInterval(es, v) == [] + rest == rest;
      }
    }
  }

  /** The filter keeps every entry with the interval as often as it occurs, and no other. */
  lemma WithIntervalCons(e: ProducerIntervalDto, rest: seq<ProducerIntervalDto>, v: Int32)
    ensures WithInterval([e] + rest, v) == (if e.interval == v then [e] else []) + WithInterval(rest, v)
  {
    assert ([e] + rest)[1..] == rest;
  }

  /** Filtering a list is filtering its two halves, one after the other. */
  lemma {:induction false} WithIntervalConcat(a: seq<ProducerIntervalDto>, b: seq<ProducerIntervalDto>, v: Int32)
    ensures WithInterval(a + b, v) == WithInterval(a, v) + WithInterval(b, v)
    decreases |a|
  {
    if |a| == 0 {
      assert a + b == b;
    } else {
      var e, tail := a[0], a[1..];
      var head := if e.interval == v then [e] else [];
      assert a == [e] + tail;
      assert a + b == [e] + (tail + b);
      calc {
        WithInterval(a + b, v);
      == { WithIntervalCons(e, tail + b, v); }
        head + WithInterval(tail + b, v);
      == { WithIntervalConcat(tail, b, v); }
        head + (WithInterval(tail, v) + WithInterval(b, v));
      ==
        (head + WithInterval(tail, v)) + WithInterval(b, v);
      == { WithIntervalCons(e, tail, v); }
        WithInterval(a, v) + WithInterval(b, v);
      }
    }
  }

  lemma {:induction false} WithIntervalCounts(es: seq<ProducerIntervalDto>, v: Int32, e: ProducerIntervalDto)
    ensures multiset(WithInterval(es, v))[e] == if e.interval == v then multiset(es)[e] else 0
    decreases |es|
  {
    if |es| > 0 {
      WithIntervalCounts(es[1..], v, e);
      assert es == [es[0]] + es[1..];
      assert multiset(es) == multiset{es[0]} + multiset(es[1..]);
    }
  }

  /** The response `getProducersIntervals` builds from the list of entries. */
  function Report(es: seq<ProducerIntervalDto>): (resp: ProducerIntervalResponse)
  {
    if |es| == 0 then ProducerIntervalResponse([], [])
    else ProducerIntervalResponse(WithInterval(es, MinInterval(es)), WithInterval(es, MaxInterval(es)))
  }

  /** The entries with the smallest interval are those no entry undercuts. */
  lemma MinEntries(es: seq<ProducerIntervalDto>, e: ProducerIntervalDto)
    requires |es| > 0
    ensures e in WithInterval(es, MinInterval(es)) <==> e in es && forall f :: f in es ==> e.interval <= f.interval
  {
    var lo := MinInterval(es);
    var i :| 0 <= i < |es| && es[i].interval == lo;
    if e in es && forall f :: f in es ==> e.interval <= f.interval {
      assert e.interval <= es[i].interval;
    }
  }

  /** The entries with the largest interval are those no entry exceeds. */
  lemma MaxEntries(es: seq<ProducerIntervalDto>, e: ProducerIntervalDto)
    requires |es| > 0
    ensures e in WithInterval(es, MaxInterval(es)) <==> e in es && forall f :: f in es ==> f.interval <= e.interval
  {
    var hi := MaxInterval(es);
    var j :| 0 <= j < |es| && es[j].interval == hi;
    if e in es && forall f :: f in es ==> f.interval <= e.interval {
      assert es[j].interval <= e.interval;
    }
  }

  /** Both lists of the response are empty exactly when there is no entry. */
  lemma ReportEmpty(es: seq<ProducerIntervalDto>)
    ensures Report(es).min == [] <==> es == []
    ensures Report(es).max == [] <==> es == []
  {
    if |es| > 0 {
      var i :| 0 <= i < |es| && es[i].interval == MinInterval(es);
      var j :| 0 <= j < |es| && es[j].interval == MaxInterval(es);
      assert es[i] in Report(es).min;
      assert es[j] in Report(es).max;
    }
  }

  /**
    `min` holds exactly the entries whose interval no entry undercuts,
    each as often as it occurs among the entries, in their order.
   */
  lemma ReportMin(es: seq<ProducerIntervalDto>)
    ensures forall e :: e in Report(es).min <==> e in es && forall f :: f in es ==> e.interval <= f.interval
    ensures forall e :: e in Report(es).min ==> multiset(Report(es).min)[e] == multiset(es)[e]
    ensures IsSubsequence(Report(es).min, es)
  {
    if |es| > 0 {
      forall e
        ensures e in Report(es).min <==> e in es && forall f :: f in es ==> e.interval <= f.interval
        ensures e in Report(es).min ==> multiset(Report(es).min)[e] == multiset(es)[e]
      {
        MinEntries(es, e);
        WithIntervalCounts(es, MinInterval(es), e);
      }
      WithIntervalInOrder(es, MinInterval(es));
    }
  }

  /**
    `max` holds exactly the entries whose interval no entry exceeds,
    each as often as it occurs among the entries, in their order.
   */
  lemma ReportMax(es: seq<ProducerIntervalDto>)
    ensures forall e :: e in Report(es).max <==> e in es && forall f :: f in es ==> f.interval <= e.interval
    ensures forall e :: e in Report(es).max ==> multiset(Report(es).max)[e] == multiset(es)[e]
    ensures IsSubsequence(Report(es).max, es)
  {
    if |es| > 0 {
      forall e
        ensures e in Report(es).max <==> e in es && forall f :: f in es ==> f.interval <= e.interval
        ensures e in Report(es).max ==> multiset(Report(es).max)[e] == multiset(es)[e]
      {
        MaxEntries(es, e);
        WithIntervalCounts(es, MaxInterval(es), e);
      }
      WithIntervalInOrder(es, MaxInterval(es));
    }
  }

  /** When every entry has the same interval, both lists hold all of them. */
  lemma ReportAllEqual(es: seq<ProducerIntervalDto>)
    requires forall i, j :: 0 <= i < |es| && 0 <= j < |es| ==> es[i].interval == es[j].interval
    ensures Report(es).min == es && Report(es).max == es
  {
    if |es| > 0 {
      WithIntervalAll(es, es[0].interval);
    }
  }

  lemma {:induction false} WithIntervalAll(es: seq<ProducerIntervalDto>, v: Int32)
    requires forall i :: 0 <= i < |es| ==> es[i].interval == v
    ensures WithInterval(es, v) == es
    decreases |es|
  {
    if |es| > 0 {
      WithIntervalAll(es[1..], v);
      assert es == [es[0]] + es[1..];
    }
  }

  // ===========================================================================
  // getProducersIntervals
  // ===========================================================================

  /** `getProducersIntervals`, with the winners the repository returns. */
  method GetProducersIntervals(winners: seq<Movie>) returns (resp: ProducerIntervalResponse)
    ensures exists order :: IsKeyOrder(order, GroupBy(winners).Keys)
                            && resp == Report(EntriesInOrder(order, GroupBy(winners)))
  {
    var producerWins := GroupWins(winners);
    var intervals := CollectIntervals(producerWins);
    if |intervals| == 0 {
      return ProducerIntervalResponse([], []);
    }
    var minInterval := MinInterval(intervals);
    var maxInterval := MaxInterval(intervals);
    var minIntervals := WithInterval(intervals, minInterval);
    var maxIntervals := WithInterval(intervals, maxInterval);
    resp := ProducerIntervalResponse(minIntervals, maxIntervals);
  }

  // ===========================================================================
  // From the winning movies to the response
  // ===========================================================================

  /** An entry of the collected list belongs to a visited producer and comes from its years. */
  lemma {:induction false} EntriesInOrderMembership(order: seq<string>, wins: map<string, seq<Int32>>, e: ProducerIntervalDto)
    requires forall p :: p in order ==> p in wins
    ensures e in EntriesInOrder(order, wins) <==> e.producer in order && e in EntriesFor(e.producer, wins[e.producer])
    decreases |order|
  {
    if |order| > 0 {
      var init := order[..|order| - 1];
      var p := order[|order| - 1];
      assert order == init + [p];
      EntriesInOrderMembership(init, wins, e);
      if e in EntriesFor(p, wins[p]) {
        PairFacts(p, SortYears(wins[p]), e);
      }
    }
  }

  /** Sorting keeps a producer's years, with their repetitions. */
  lemma SortYearsKeeps(ys: seq<Int32>)
    ensures |SortYears(ys)| == |ys|
    ensures forall y :: y in SortYears(ys) <==> y in ys
  {
    var r := SortYears(ys);
    assert |multiset(r)| == |multiset(ys)|;
    forall y
      ensures y in r <==> y in ys
    {
      assert y in r <==> y in multiset(r);
      assert y in ys <==> y in multiset(ys);
    }
  }

  /**
    Every entry of the response's source list is about a producer of some
    winning movie, and pairs two of that producer's win years with no win
    of theirs strictly between; the interval is the difference of the two.
   */
  lemma EntryOfWinners(winners: seq<Movie>, order: seq<string>, e: ProducerIntervalDto)
    requires IsKeyOrder(order, GroupBy(winners).Keys)
    requires e in EntriesInOrder(order, GroupBy(winners))
    ensures Listed(winners, e.producer)
    ensures e.previousWin in YearsOf(winners, e.producer) && e.followingWin in YearsOf(winners, e.producer)
    ensures e.previousWin <= e.followingWin
    ensures forall y :: y in YearsOf(winners, e.producer) ==> !(e.previousWin < y < e.followingWin)
    ensures e.interval == Sub32(e.followingWin, e.previousWin)
  {
    var wins := GroupBy(winners);
    EntriesInOrderMembership(order, wins, e);
    GroupByYears(winners, e.producer);
    var ys := YearsOf(winners, e.producer);
    SortYearsKeeps(ys);
    PairFacts(e.producer, SortYears(ys), e);
  }

  /**
    Every two consecutive years in the sorted win years of a producer give
    an entry, whatever order the map's keys are visited in.
   */
  lemma WinnersComplete(winners: seq<Movie>, order: seq<string>, p: string, i: nat)
    requires IsKeyOrder(order, GroupBy(winners).Keys)
    requires i + 1 < |SortYears(YearsOf(winners, p))|
    ensures var ys := SortYears(YearsOf(winners, p));
            ProducerIntervalDto(p, Sub32(ys[i + 1], ys[i]), ys[i], ys[i + 1]) in EntriesInOrder(order, GroupBy(winners))
  {
    var ys := SortYears(YearsOf(winners, p));
    SortYearsKeeps(YearsOf(winners, p));
    GroupByYears(winners, p);
    assert p in GroupBy(winners);
    PairsComplete(p, ys, i);
    EntriesInOrderMembership(order, GroupBy(winners), ProducerIntervalDto(p, Sub32(ys[i + 1], ys[i]), ys[i], ys[i + 1]));
  }

  /**
    Both lists of the response are empty exactly when no producer has won
    twice.
   */
  lemma NoIntervals(winners: seq<Movie>, order: seq<string>)
    requires IsKeyOrder(order, GroupBy(winners).Keys)
    ensures Report(EntriesInOrder(order, GroupBy(winners))).min == [] <==> forall p :: |YearsOf(winners, p)| < 2
    ensures Report(EntriesInOrder(order, GroupBy(winners))).max == [] <==> forall p :: |YearsOf(winners, p)| < 2
  {
    var wins := GroupBy(winners);
    var es := EntriesInOrder(order, wins);
    ReportEmpty(es);
    if |es| > 0 {
      var e := es[0];
      EntriesInOrderMembership(order, wins, e);
      GroupByYears(winners, e.producer);
      SortYearsKeeps(wins[e.producer]);
      assert |YearsOf(winners, e.producer)| >= 2;
    }
    forall p | |YearsOf(winners, p)| >= 2
      ensures |es| > 0
    {
      SortYearsKeeps(YearsOf(winners, p));
      WinnersComplete(winners, order, p, 0);
    }
  }

  /** With no winning movie, both lists of the response are empty. */
  lemma NoWinnersNoIntervals(order: seq<string>)
    requires IsKeyOrder(order, GroupBy([]).Keys)
    ensures Report(EntriesInOrder(order, GroupBy([]))) == ProducerIntervalResponse([], [])
  {
    NoIntervals([], order);
  }

  /**
    An entry of `min` has an interval no larger than that of any two
    consecutive win years of any producer.
   */
  lemma MinBelowEveryGap(winners: seq<Movie>, order: seq<string>, e: ProducerIntervalDto, p: string, i: nat)
    requires IsKeyOrder(order, GroupBy(winners).Keys)
    requires e in Report(EntriesInOrder(order, GroupBy(winners))).min
    requires i + 1 < |SortYears(YearsOf(winners, p))|
    ensures var ys := SortYears(YearsOf(winners, p));
            e.interval <= Sub32(ys[i + 1], ys[i])
  {
    var ys := SortYears(YearsOf(winners, p));
    WinnersComplete(winners, order, p, i);
    ReportMin(EntriesInOrder(order, GroupBy(winners)));
    assert ProducerIntervalDto(p, Sub32(ys[i + 1], ys[i]), ys[i], ys[i + 1]) in EntriesInOrder(order, GroupBy(winners));
  }

  /**
    An entry of `max` has an interval no smaller than that of any two
    consecutive win years of any producer.
   */
  lemma MaxAboveEveryGap(winners: seq<Movie>, order: seq<string>, e: ProducerIntervalDto, p: string, i: nat)
    requires IsKeyOrder(order, GroupBy(winners).Keys)
    requires e in Report(EntriesInOrder(order, GroupBy(winners))).max
    requires i + 1 < |SortYears(YearsOf(winners, p))|
    ensures var ys := SortYears(YearsOf(winners, p));
            Sub32(ys[i + 1], ys[i]) <= e.interval
  {
    var ys := SortYears(YearsOf(winners, p));
    WinnersComplete(winners, order, p, i);
    ReportMax(EntriesInOrder(order, GroupBy(winners)));
    assert ProducerIntervalDto(p, Sub32(ys[i + 1], ys[i]), ys[i], ys[i + 1]) in EntriesInOrder(order, GroupBy(winners));
  }

  // ---------------------------------------------------------------------------
  // How many entries each producer gets
  // ---------------------------------------------------------------------------

  /** The entries of one producer, in the order of the list. */
  function Of(p: string, es: seq<ProducerIntervalDto>): (mine: seq<ProducerIntervalDto>)
  {
    if |es| == 0 then []
    else Of(p, es[..|es| - 1]) + (if es[|es| - 1].producer == p then [es[|es| - 1]] else [])
  }

  /** `Of` keeps exactly the entries of the producer. */
  lemma {:induction false} OfMembership(p: string, es: seq<ProducerIntervalDto>, e: ProducerIntervalDto)
    ensures e in Of(p, es) <==> e in es && e.producer == p
    decreases |es|
  {
    if |es| > 0 {
      OfMembership(p, es[..|es| - 1], e);
      assert es == es[..|es| - 1] + [es[|es| - 1]];
    }
  }

  lemma {:induction false} OfConcat(p: string, a: seq<ProducerIntervalDto>, b: seq<ProducerIntervalDto>)
    ensures Of(p, a + b) == Of(p, a) + Of(p, b)
    decreases |b|
  {
    if |b| == 0 {
      assert a + b == a;
    } else {
      var init, last := b[..|b| - 1], b[|b| - 1];
      var tail := if last.producer == p then [last] else [];
      assert a + b == (a + init) + [last];
      assert (a + b)[..|a + b| - 1] == a + init;
      OfConcat(p, a, init);
      calc {
        Of(p, a + b);
        Of(p, a + init) + tail;
        (Of(p, a) + Of(p, init)) + tail;
        Of(p, a) + (Of(p, init) + tail);
      }
    }
  }

  lemma {:induction false} OfAll(p: string, es: seq<ProducerIntervalDto>)
    requires forall i :: 0 <= i < |es| ==> es[i].producer == p
    ensures Of(p, es) == es
    decreases |es|
  {
    if |es| > 0 {
      OfAll(p, es[..|es| - 1]);
      assert es == es[..|es| - 1] + [es[|es| - 1]];
    }
  }

  lemma {:induction false} OfNone(p: string, es: seq<ProducerIntervalDto>)
    requires forall i :: 0 <= i < |es| ==> es[i].producer != p
    ensures Of(p, es) == []
    decreases |es|
  {
    if |es| > 0 {
      OfNone(p, es[..|es| - 1]);
    }
  }

  /** Each entry of `EntriesFor(q, ys)` belongs to producer `q`. */
  lemma EntriesForProducer(q: string, ys: seq<Int32>, i: nat)
    requires i < |EntriesFor(q, ys)|
    ensures EntriesFor(q, ys)[i].producer == q
  {
    PairFacts(q, SortYears(ys), EntriesFor(q, ys)[i]);
  }

  /** Of one producer's block, `p` keeps all when it is that producer and nothing otherwise. */
  lemma OfEntriesFor(p: string, q: string, ys: seq<Int32>)
    ensures Of(p, EntriesFor(q, ys)) == if q == p then EntriesFor(q, ys) else []
  {
    var mine := EntriesFor(q, ys);
    forall i | 0 <= i < |mine|
      ensures mine[i].producer == q
    {
      EntriesForProducer(q, ys, i);
    }
    if q == p {
      OfAll(p, mine);
    } else {
      OfNone(p, mine);
    }
  }

  /** A name is in a list iff it is in all but the last or is the last. */
  lemma InInitOrLast(order: seq<string>, p: string)
    requires |order| > 0
    ensures p in order <==> p in order[..|order| - 1] || p == order[|order| - 1]
  {
    assert order == order[..|order| - 1] + [order[|order| - 1]];
  }

  /** In a list without repetitions, the last name is not among the others. */
  lemma LastIsNew(order: seq<string>)
    requires |order| > 0
    requires forall i, j :: 0 <= i < j < |order| ==> order[i] != order[j]
    ensures order[|order| - 1] !in order[..|order| - 1]
  {
    var init := order[..|order| - 1];
    forall k | 0 <= k < |init|
      ensures init[k] != order[|order| - 1]
    {
      assert init[k] == order[k];
    }
  }

  /** The visiting order does not mix producers: each one's entries come as one block. */
  lemma {:induction false} OfOrder(order: seq<string>, wins: map<string, seq<Int32>>, p: string)
    requires forall q :: q in order ==> q in wins
    requires forall i, j :: 0 <= i < j < |order| ==> order[i] != order[j]
    ensures Of(p, EntriesInOrder(order, wins)) == if p in order then EntriesFor(p, wins[p]) else []
    decreases |order|
  {
    if |order| > 0 {
      var init, q := order[..|order| - 1], order[|order| - 1];
      var es, mine := EntriesInOrder(init, wins), EntriesFor(q, wins[q]);
      assert EntriesInOrder(order, wins) == es + mine;
      OfOrder(init, wins, p);
      OfConcat(p, es, mine);
      OfEntriesFor(p, q, wins[q]);
      InInitOrLast(order, p);
      LastIsNew(order);
    }
  }

  /**
    The collected list holds, for a producer listed by k winners, the k - 1
    entries of its consecutive sorted win years, in order, and none for a
    producer listed once or not at all, whatever the map's order.
   */
  lemma EntriesOfProducer(winners: seq<Movie>, order: seq<string>, p: string)
    requires IsKeyOrder(order, GroupBy(winners).Keys)
    ensures Of(p, EntriesInOrder(order, GroupBy(winners))) == Pairs(p, SortYears(YearsOf(winners, p)))
    ensures |Of(p, EntriesInOrder(order, GroupBy(winners)))|
            == if |YearsOf(winners, p)| < 2 then 0 else |YearsOf(winners, p)| - 1
  {
    OfOrder(order, GroupBy(winners), p);
    GroupByYears(winners, p);
    SortYearsKeeps(YearsOf(winners, p));
  }
}
