/**
  The greedy selector shared by `PackageChallenge.packageItems`, `Package.optimizePackage`
  and `PackageOperations.optimizePackage`: sort the candidates by cost, highest first, then
  make one pass keeping a running total, the chosen set and the "previous" item.

  The copies differ only in what the swap does to the bookkeeping, which `Bookkeeping`
  selects. The loop (`Select`) is specified by a left fold (`Run`) of one iteration (`Step`).
*/
module Selection {
  import opened Results
  import opened Items

  /**
    What the swap branch does. `SubtractOnly` is `PackageChallenge.packageItems`: the total
    loses the previous item's weight and gains nothing. `SubtractThenAdd` is both
    `optimizePackage` methods: the total loses the previous item's weight and gains the new
    one's. In both, `previousItem` keeps pointing at the item just removed. `Exchange` is the
    evidently intended swap: subtract, add, and make the new item the previous one.
  */
  datatype Bookkeeping = SubtractOnly | SubtractThenAdd | Exchange

  /** The loop's three variables: `valuedPackage`, the running sum of weights, `previousItem`. */
  datatype Selector = Selector(chosen: set<Item>, total: real, previous: Option<Item>)

  const Start: Selector := Selector({}, 0.0, None)


  // ---------------------------------------------------------------------------
  // The sort

  /** `Comparator.comparing(Item::getCost, Comparator.reverseOrder())`: no item costs more than the one before it. */
  ghost predicate CostDescending(s: seq<Item>)
  {
    forall i, j :: 0 <= i < j < |s| ==> s[i].cost >= s[j].cost
  }

  /** `x` goes before the first element that costs no more than it. */
  function Insert(x: Item, s: seq<Item>): (r: seq<Item>)
    ensures multiset(r) == multiset(s) + multiset{x}
    ensures |r| == |s| + 1 && (r[0] == x || (s != [] && r[0] == s[0]))
  {
    if s == [] then [x]
    else if s[0].cost > x.cost then
      assert s == [s[0]] + s[1..];
      [s[0]] + Insert(x, s[1..])
    else [x] + s
  }

  /** Inserting into a cost-descending list keeps it cost-descending. */
  lemma {:induction false} InsertKeepsDescending(x: Item, s: seq<Item>)
    requires CostDescending(s)
    ensures CostDescending(Insert(x, s))
  {
    if s != [] && s[0].cost > x.cost {
      DescendingTail(s);
      var rest := Insert(x, s[1..]);
      InsertKeepsDescending(x, s[1..]);
      var r := [s[0]] + rest;
      forall j | 0 <= j < |rest| ensures s[0].cost >= rest[j].cost {
        assert rest[j] in multiset(rest);
        if rest[j] != x {
          assert rest[j] in multiset(s[1..]);
          var k :| 0 <= k < |s[1..]| && s[1..][k] == rest[j];
          assert s[k + 1] == rest[j];
        }
      }
      forall i, j | 0 <= i < j < |r| ensures r[i].cost >= r[j].cost {
        assert r[j] == rest[j - 1];
        if i > 0 {
          assert r[i] == rest[i - 1];
        }
      }
    }
  }

  /** The candidates in the order the selection loop visits them. */
  function SortByCostDescending(s: seq<Item>): (r: seq<Item>)
    ensures multiset(r) == multiset(s)
    ensures forall it :: it in r <==> it in s
    ensures CostDescending(r)
  {
    if s == [] then []
    else
      assert s == [s[0]] + s[1..];
      var sorted := SortByCostDescending(s[1..]);
      InsertKeepsDescending(s[0], sorted);
      var r := Insert(s[0], sorted);
      assert forall it :: it in r <==> it in multiset(r);
      r
  }

  /** `s` lists every object of `items` exactly once: one of `HashSet`'s possible iteration orders. */
  predicate Enumerates(s: seq<Item>, items: set<Item>)
  {
    multiset(s) == multiset(items)
  }

  /**
    One of `HashSet`'s iteration orders over `items`: which one the library picks is left
    open, so every property of the selection is stated for all of them.
  */
  method Enumerate(items: set<Item>) returns (s: seq<Item>)
    ensures Enumerates(s, items)
  {
    s := [];
    var rest := items;
    while rest != {}
      invariant rest <= items
      invariant multiset(s) + multiset(rest) == multiset(items)
      decreases |rest|
    {
      var x :| x in rest;
      assert multiset(rest) == multiset(rest - {x}) + multiset{x};
      s := s + [x];
      rest := rest - {x};
    }
  }

  /** No object is visited twice. */
  predicate Distinct(s: seq<Item>)
  {
    forall i, j :: 0 <= i < j < |s| ==> s[i] != s[j]
  }

  // ---------------------------------------------------------------------------
  // One iteration and the whole pass

  /**
    One iteration of the selection loop on `item`: the empty package takes it; an item that
    would overflow and costs the same as the previous one replaces it when strictly lighter;
    an item that fits is added; anything else is skipped. The package is empty exactly when
    no previous item has been recorded (`RunInvariant`), which is how the first branch is told.
  */
  function Step(b: Bookkeeping, limit: real, s: Selector, item: Item): (t: Selector)
    ensures t.previous.Some?
    ensures (item in t.chosen && t.chosen <= s.chosen + {item}) || t == s
  {
    if s.previous.None? then Selector(s.chosen + {item}, s.total + item.weight, Some(item))
    else
      var prev := s.previous.value;
      if s.total + item.weight > limit && item.cost == prev.cost then
        if item.weight < prev.weight then
          var total := if b == SubtractOnly then s.total - prev.weight else s.total - prev.weight + item.weight;
          Selector(s.chosen - {prev} + {item}, total, if b == Exchange then Some(item) else s.previous)
        else s
      else if s.total + item.weight <= limit then Selector(s.chosen + {item}, s.total + item.weight, Some(item))
      else s
  }

  /**
    What one iteration does once the package holds something. An item that would overflow
    and costs the same as the previous one but is strictly lighter swaps with it: the
    previous item leaves, the item joins, the total loses the previous weight (and gains the
    item's unless only subtracting), and the previous item stays recorded except with the
    corrected swap. An item that would overflow without being such a replacement changes
    nothing; an item that fits joins and becomes the previous one.
  */
  lemma StepEffects(b: Bookkeeping, limit: real, s: Selector, item: Item)
    requires s.previous.Some?
    ensures var t, prev := Step(b, limit, s, item), s.previous.value;
      && (s.total + item.weight > limit && item.cost == prev.cost && item.weight < prev.weight ==>
            t.chosen == s.chosen - {prev} + {item}
            && t.total == s.total - prev.weight + (if b == SubtractOnly then 0.0 else item.weight)
            && t.previous == (if b == Exchange then Some(item) else s.previous))
      && (s.total + item.weight > limit && (item.cost != prev.cost || item.weight >= prev.weight) ==> t == s)
      && (s.total + item.weight <= limit ==> t == Selector(s.chosen + {item}, s.total + item.weight, Some(item)))
      && t.chosen <= s.chosen + {item} && s.chosen - t.chosen <= {prev}
  {
  }

  /** The state after the loop has visited `visit`, in order. */
  function Run(b: Bookkeeping, limit: real, visit: seq<Item>): (s: Selector)
    ensures s.previous.None? <==> visit == []
  {
    if visit == [] then Start
    else
      var s := Run(b, limit, visit[..|visit| - 1]);
      Step(b, limit, s, visit[|visit| - 1])
  }

  /** The items a pass over the candidates, taken in `iteration` order before the sort, selects. */
  function Choose(b: Bookkeeping, limit: real, iteration: seq<Item>): (r: set<Item>)
    ensures forall it :: it in r ==> it in iteration
    ensures r == {} <==> iteration == []
  {
    var visit := SortByCostDescending(iteration);
    assert iteration != [] ==> iteration[0] in visit;
    RunWithinVisit(b, limit, visit);
    RunInvariant(b, limit, visit);
    Run(b, limit, visit).chosen
  }

  /**
    The selection loop itself: sort, then visit the candidates once, updating the chosen set,
    the running total and the previous item as each copy of the code does.
  */
  method Select(b: Bookkeeping, limit: real, iteration: seq<Item>) returns (chosen: set<Item>)
    ensures chosen == Choose(b, limit, iteration)
  {
    var visit := SortByCostDescending(iteration);
    chosen := {};
    var total := 0.0;
    var previous: Option<Item> := None;
    var i := 0;
    while i < |visit|
      invariant 0 <= i <= |visit|
      invariant Selector(chosen, total, previous) == Run(b, limit, visit[..i])
    {
      RunPrefix(b, limit, visit, i);
      chosen, total, previous := Visit(b, limit, chosen, total, previous, visit[i]);
      i := i + 1;
    }
    assert visit[..|visit|] == visit;
  }

  /** The body of the selection loop, for one item. */
  method Visit(b: Bookkeeping, limit: real, chosen: set<Item>, total: real, previous: Option<Item>, item: Item)
    returns (chosen': set<Item>, total': real, previous': Option<Item>)
    ensures Selector(chosen', total', previous') == Step(b, limit, Selector(chosen, total, previous), item)
  {
    chosen', total', previous' := chosen, total, previous;
    if previous.None? {
      total' := total' + item.weight;
      chosen' := chosen' + {item};
      previous' := Some(item);
    } else if total' + item.weight > limit && item.cost == previous.value.cost {
      if item.weight < previous.value.weight {
        chosen' := chosen' - {previous.value};
        total' := total' - previous.value.weight;
        if b != SubtractOnly {
          total' := total' + item.weight;
        }
        chosen' := chosen' + {item};
        if b == Exchange {
          previous' := Some(item);
        }
      }
    } else if total' + item.weight <= limit {
      total' := total' + item.weight;
      chosen' := chosen' + {item};
      previous' := Some(item);
    }
  }

  // ---------------------------------------------------------------------------
  // Weight of a set of items

  /** The true weight of a set of items, as opposed to the running total the loop keeps. */
  ghost function SetWeight(items: set<Item>): real
  {
    if items == {} then 0.0
    else
      var x :| x in items;
      x.weight + SetWeight(items - {x})
  }

  /** Whichever element `SetWeight` happens to pick first, the sum is the same. */
  lemma {:induction false} SetWeightRemove(items: set<Item>, y: Item)
    requires y in items
    ensures SetWeight(items) == y.weight + SetWeight(items - {y})
    decreases |items|
  {
    var x :| x in items && SetWeight(items) == x.weight + SetWeight(items - {x});
    if x != y {
      assert y in items - {x};
      SetWeightRemove(items - {x}, y);
      assert items - {x} - {y} == items - {y} - {x};
      SetWeightRemove(items - {y}, x);
    }
  }

  /** Adding an item not yet in a set adds its weight. */
  lemma SetWeightAdd(items: set<Item>, y: Item)
    requires y !in items
    ensures SetWeight(items + {y}) == SetWeight(items) + y.weight
  {
    SetWeightRemove(items + {y}, y);
    assert items + {y} - {y} == items;
  }

  // ---------------------------------------------------------------------------
  // Properties of the pass

  /**
    The package is empty exactly when no previous item is recorded, which is exactly before
    the first iteration; until then the total is zero. A swap never empties the package.
  */
  lemma {:induction false} RunInvariant(b: Bookkeeping, limit: real, visit: seq<Item>)
    ensures var s := Run(b, limit, visit);
      (s.chosen == {} <==> s.previous.None?) && (s.chosen == {} <==> visit == []) && (visit == [] ==> s.total == 0.0)
  {
    if visit != [] {
      var prefix := visit[..|visit| - 1];
      RunInvariant(b, limit, prefix);
    }
  }

  /** The loop only ever chooses, or remembers as previous, items it has visited. */
  lemma {:induction false} RunWithinVisit(b: Bookkeeping, limit: real, visit: seq<Item>)
    ensures forall it :: it in Run(b, limit, visit).chosen ==> it in visit
    ensures Run(b, limit, visit).previous.Some? ==> Run(b, limit, visit).previous.value in visit
  {
    if visit != [] {
      var prefix := visit[..|visit| - 1];
      RunWithinVisit(b, limit, prefix);
      assert forall it :: it in prefix ==> it in visit;
    }
  }

  /** Visiting one more item is one more iteration. */
  lemma RunSnoc(b: Bookkeeping, limit: real, visit: seq<Item>, item: Item)
    ensures Run(b, limit, visit + [item]) == Step(b, limit, Run(b, limit, visit), item)
  {
    assert (visit + [item])[..|visit|] == visit;
  }

  /** The pass over the first `k + 1` items is the pass over the first `k`, then one iteration. */
  lemma RunPrefix(b: Bookkeeping, limit: real, visit: seq<Item>, k: nat)
    requires k < |visit|
    ensures Run(b, limit, visit[..k + 1]) == Step(b, limit, Run(b, limit, visit[..k]), visit[k])
  {
    assert visit[..k + 1][..k] == visit[..k];
  }

  /**
    With every candidate within the limit, the running total never exceeds the limit. A swap
    fires only when the item overflows a total within the limit, so the item weighs more than
    nothing and the previous item, heavier still, too: taking its weight away lowers the total.
  */
  lemma {:induction false} RunWithinLimit(b: Bookkeeping, limit: real, visit: seq<Item>)
    requires forall it :: it in visit ==> it.weight <= limit
    ensures visit != [] ==> Run(b, limit, visit).total <= limit
  {
    if visit != [] {
      var prefix := visit[..|visit| - 1];
      assert forall it :: it in prefix ==> it in visit;
      RunWithinLimit(b, limit, prefix);
      RunWithinVisit(b, limit, prefix);
      var s := Run(b, limit, prefix);
      if s.previous.Some? {
        assert s.previous.value in visit;
      }
    }
  }

  /**
    In the copies that subtract and then add, the running total is never negative when the
    weights are not: a swap happens only when the total plus the new weight exceeds the
    limit, so what remains after taking away the previous weight (at most the limit) is positive.
  */
  lemma {:induction false} RunNonNegative(b: Bookkeeping, limit: real, visit: seq<Item>)
    requires b != SubtractOnly
    requires forall it :: it in visit ==> 0.0 <= it.weight <= limit
    ensures Run(b, limit, visit).total >= 0.0
  {
    if visit != [] {
      var prefix := visit[..|visit| - 1];
      assert forall it :: it in prefix ==> it in visit;
      RunNonNegative(b, limit, prefix);
      RunWithinVisit(b, limit, prefix);
    }
  }

  /**
    When no two candidates cost the same, the swap never fires: every copy makes the same
    moves as the corrected one, and the running total is the true weight of the chosen set.
  */
  lemma {:induction false} RunDistinctCosts(b: Bookkeeping, limit: real, visit: seq<Item>)
    requires forall i, j :: 0 <= i < j < |visit| ==> visit[i].cost != visit[j].cost
    ensures Run(b, limit, visit) == Run(Exchange, limit, visit)
    ensures Run(b, limit, visit).total == SetWeight(Run(b, limit, visit).chosen)
  {
    if visit == [] {
    } else {
      var prefix, item := visit[..|visit| - 1], visit[|visit| - 1];
      RunDistinctCosts(b, limit, prefix);
      RunWithinVisit(b, limit, prefix);
      var s := Run(b, limit, prefix);
      if s.previous.Some? {
        var k :| 0 <= k < |prefix| && prefix[k] == s.previous.value;
        assert visit[k] == prefix[k];
        assert item.cost != s.previous.value.cost;
      }
      if s.previous.None? || s.total + item.weight <= limit {
        SetWeightAdd(s.chosen, item);
      }
    }
  }

  /**
    With pairwise distinct costs and every candidate within the limit, the chosen set's true
    weight is within the limit.
  */
  lemma DistinctCostsWithinLimit(b: Bookkeeping, limit: real, visit: seq<Item>)
    requires visit != []
    requires forall i, j :: 0 <= i < j < |visit| ==> visit[i].cost != visit[j].cost
    requires forall it :: it in visit ==> it.weight <= limit
    ensures SetWeight(Run(b, limit, visit).chosen) <= limit
  {
    RunDistinctCosts(b, limit, visit);
    RunWithinLimit(b, limit, visit);
  }

  /**
    The corrected swap: when no object is visited twice, the previous item is always in the
    package and the running total is always the package's true weight.
  */
  lemma {:induction false} ExchangeKeepsTotal(limit: real, visit: seq<Item>)
    requires Distinct(visit)
    ensures var s := Run(Exchange, limit, visit);
      s.total == SetWeight(s.chosen) && (s.previous.Some? ==> s.previous.value in s.chosen)
  {
    if visit != [] {
      var prefix, item := visit[..|visit| - 1], visit[|visit| - 1];
      assert Distinct(prefix);
      ExchangeKeepsTotal(limit, prefix);
      RunWithinVisit(Exchange, limit, prefix);
      var s := Run(Exchange, limit, prefix);
      if s.previous.Some? && s.total + item.weight > limit && item.cost == s.previous.value.cost && item.weight < s.previous.value.weight {
        var prev := s.previous.value;
        SetWeightRemove(s.chosen, prev);
        SetWeightAdd(s.chosen - {prev}, item);
      } else if s.previous.None? || s.total + item.weight <= limit {
        SetWeightAdd(s.chosen, item);
      }
    }
  }

  /** With the corrected swap, the package never weighs more than the limit. */
  lemma ExchangeWithinLimit(limit: real, visit: seq<Item>)
    requires visit != [] && Distinct(visit)
    requires forall it :: it in visit ==> it.weight <= limit
    ensures SetWeight(Run(Exchange, limit, visit).chosen) <= limit
  {
    ExchangeKeepsTotal(limit, visit);
    RunWithinLimit(Exchange, limit, visit);
  }

  /**
    The sort only reorders: a list that already costs less and less is left as it is, so
    every cost-descending order of the candidates is one the loop may visit.
  */
  lemma {:induction false} SortKeepsDescending(s: seq<Item>)
    requires CostDescending(s)
    ensures SortByCostDescending(s) == s
  {
    if s != [] {
      var t := s[1..];
      DescendingTail(s);
      SortKeepsDescending(t);
      SortUnfold(s);
      if t != [] {
        assert t[0] == s[1] && s[0].cost >= s[1].cost;
      }
      assert Insert(s[0], t) == [s[0]] + t == s;
    }
  }

  /** The sort inserts the first element into the sorted rest. */
  lemma SortUnfold(s: seq<Item>)
    requires s != []
    ensures SortByCostDescending(s) == Insert(s[0], SortByCostDescending(s[1..]))
  {
  }

  /** What follows the first element of a cost-descending list is cost-descending. */
  lemma DescendingTail(s: seq<Item>)
    requires s != [] && CostDescending(s)
    ensures CostDescending(s[1..])
  {
    var t := s[1..];
    forall i, j | 0 <= i < j < |t| ensures t[i].cost >= t[j].cost {
      assert t[i] == s[i + 1] && t[j] == s[j + 1];
    }
  }

  // ---------------------------------------------------------------------------
  // What the swaps as written do

  /**
    `previousItem` is not updated after a swap: with limit 10, p (weight 6), a (weight 5)
    and b (weight 5.5), all of cost 5, visited in that order, `a` replaces `p`, then `b`
    "replaces" `p` again and joins `a`. The package weighs 10.5.
  */
  lemma StalePreviousOverflows()
    ensures var p, a, b := Item(0, 1, 6.0, 5.0), Item(1, 2, 5.0, 5.0), Item(2, 3, 5.5, 5.0);
      var s := Run(SubtractThenAdd, 10.0, [p, a, b]);
      s.chosen == {a, b} && s.total == 4.5 && SetWeight(s.chosen) == 10.5
  {
    var p, a, b := Item(0, 1, 6.0, 5.0), Item(1, 2, 5.0, 5.0), Item(2, 3, 5.5, 5.0);
    RunSnoc(SubtractThenAdd, 10.0, [], p);
    RunSnoc(SubtractThenAdd, 10.0, [p], a);
    RunSnoc(SubtractThenAdd, 10.0, [p, a], b);
    assert [p] + [a] == [p, a] && [p, a] + [b] == [p, a, b];
    PairWeight(a, b);
  }

  /** With the corrected swap the same visit keeps only `a`. */
  lemma ExchangeOnStaleExample()
    ensures var p, a, b := Item(0, 1, 6.0, 5.0), Item(1, 2, 5.0, 5.0), Item(2, 3, 5.5, 5.0);
      Run(Exchange, 10.0, [p, a, b]).chosen == {a}
  {
    var p, a, b := Item(0, 1, 6.0, 5.0), Item(1, 2, 5.0, 5.0), Item(2, 3, 5.5, 5.0);
    RunSnoc(Exchange, 10.0, [], p);
    RunSnoc(Exchange, 10.0, [p], a);
    RunSnoc(Exchange, 10.0, [p, a], b);
    assert [p] + [a] == [p, a] && [p, a] + [b] == [p, a, b];
  }

  /** The weight of two distinct items. */
  lemma PairWeight(x: Item, y: Item)
    requires x != y
    ensures SetWeight({x, y}) == x.weight + y.weight
  {
    SetWeightAdd({x}, y);
    SetWeightAdd({}, x);
    assert {} + {x} == {x} && {x} + {y} == {x, y};
  }

  /**
    The candidates of the record "56 : (1,90.72,€13) (2,33.80,€40) (3,43.15,€10)
    (4,37.97,€16) (5,46.81,€36) (6,48.77,€79) (7,81.80,€45) (8,19.36,€79) (9,6.76,€64)"
    that weigh no more than 56, each keyed by its token's position.
  */
  const Item2: Item := Item(1, 2, 33.80, 40.0)
  const Item3: Item := Item(2, 3, 43.15, 10.0)
  const Item4: Item := Item(3, 4, 37.97, 16.0)
  const Item5: Item := Item(4, 5, 46.81, 36.0)
  const Item6: Item := Item(5, 6, 48.77, 79.0)
  const Item8: Item := Item(7, 8, 19.36, 79.0)
  const Item9: Item := Item(8, 9, 6.76, 64.0)

  /** Those candidates in a cost-descending order with item 6 before item 8. */
  function SampleVisit(): (v: seq<Item>)
    ensures CostDescending(v)
  {
    [Item6, Item8, Item9, Item2, Item5, Item4, Item3]
  }

  /** After item 6, item 8 and item 9: the state both swap variants reach, up to the total. */
  lemma SampleFirstThree(b: Bookkeeping)
    requires b != Exchange
    ensures Run(b, 56.0, SampleVisit()[..3]) ==
      Selector({Item8, Item9}, if b == SubtractOnly then 6.76 else 26.12, Some(Item9))
  {
    var v := SampleVisit();
    RunPrefix(b, 56.0, v, 0);
    RunPrefix(b, 56.0, v, 1);
    RunPrefix(b, 56.0, v, 2);
    assert v[..1] == [Item6] && v[..2] == [Item6, Item8];
    assert Run(b, 56.0, v[..1]) == Selector({Item6}, 48.77, Some(Item6));
    assert {Item6} - {Item6} + {Item8} == {Item8};
    assert Run(b, 56.0, v[..2]) == Selector({Item8}, if b == SubtractOnly then 0.0 else 19.36, Some(Item6));
  }

  /** The live copy visits items 2, 5, 4 and 3 with the total at 6.76: item 2 fits, the others do not. */
  lemma LiveSampleRun()
    ensures Run(SubtractOnly, 56.0, SampleVisit()) == Selector({Item8, Item9, Item2}, 40.56, Some(Item2))
  {
    var v := SampleVisit();
    SampleFirstThree(SubtractOnly);
    RunPrefix(SubtractOnly, 56.0, v, 3);
    var s := Selector({Item8, Item9, Item2}, 40.56, Some(Item2));
    assert {Item8, Item9} + {Item2} == {Item8, Item9, Item2};
    assert Run(SubtractOnly, 56.0, v[..4]) == s;
    RunPrefix(SubtractOnly, 56.0, v, 4);
    RunPrefix(SubtractOnly, 56.0, v, 5);
    RunPrefix(SubtractOnly, 56.0, v, 6);
    assert v[..7] == v;
  }

  /**
    The live copy's swap subtracts item 6's weight without adding item 8's: the total drops
    to 0, items 9 and 2 then fit, and the package {2, 8, 9} weighs 59.92 against a limit of 56.
  */
  lemma LiveSwapOverflows()
    ensures var s := Run(SubtractOnly, 56.0, SampleVisit());
      s.chosen == {Item8, Item9, Item2} && s.total == 40.56 && SetWeight(s.chosen) == 59.92
  {
    LiveSampleRun();
    TripleWeight(Item8, Item9, Item2);
  }

  /**
    The sample visit is one of `HashSet`'s iteration orders over the light candidates, and
    already in descending cost order, so the sort keeps it: on it the live pipeline chooses
    {2, 8, 9} and the refactored copies choose {8, 9}.
  */
  lemma SampleChoices()
    ensures Enumerates(SampleVisit(), {Item2, Item3, Item4, Item5, Item6, Item8, Item9})
    ensures Choose(SubtractOnly, 56.0, SampleVisit()) == {Item8, Item9, Item2}
    ensures Choose(SubtractThenAdd, 56.0, SampleVisit()) == {Item8, Item9}
  {
    SampleEnumerates();
    ChooseInOrder(SubtractOnly, 56.0, SampleVisit());
    ChooseInOrder(SubtractThenAdd, 56.0, SampleVisit());
    LiveSampleRun();
    RefactoredOnSample();
  }

  /** An iteration order already in descending cost is visited as it is. */
  lemma ChooseInOrder(b: Bookkeeping, limit: real, iteration: seq<Item>)
    requires CostDescending(iteration)
    ensures Choose(b, limit, iteration) == Run(b, limit, iteration).chosen
  {
    SortKeepsDescending(iteration);
  }

  /** The sample visit lists each light candidate once. */
  lemma SampleEnumerates()
    ensures Enumerates(SampleVisit(), {Item2, Item3, Item4, Item5, Item6, Item8, Item9})
  {
    var items := {Item2, Item3, Item4, Item5, Item6, Item8, Item9};
    assert multiset(items) == multiset{Item6, Item8, Item9, Item2, Item5, Item4, Item3};
    assert multiset(SampleVisit()) == multiset{Item6, Item8, Item9, Item2, Item5, Item4, Item3};
  }

  /** The copies that subtract and then add choose {8, 9} on the same visit. */
  lemma RefactoredOnSample()
    ensures Run(SubtractThenAdd, 56.0, SampleVisit()).chosen == {Item8, Item9}
  {
    var v := SampleVisit();
    SampleFirstThree(SubtractThenAdd);
    RunPrefix(SubtractThenAdd, 56.0, v, 3);
    RunPrefix(SubtractThenAdd, 56.0, v, 4);
    RunPrefix(SubtractThenAdd, 56.0, v, 5);
    RunPrefix(SubtractThenAdd, 56.0, v, 6);
    assert v[..7] == v;
  }

  /** The weight of three distinct items. */
  lemma TripleWeight(x: Item, y: Item, z: Item)
    requires x != y && y != z && x != z
    ensures SetWeight({x, y, z}) == x.weight + y.weight + z.weight
  {
    PairWeight(x, y);
    SetWeightAdd({x, y}, z);
    assert {x, y} + {z} == {x, y, z};
  }
}
