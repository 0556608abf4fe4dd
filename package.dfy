/**
  `entity.Package`: a weight limit and a set of items, with the record reader that fills
  them in place, the greedy selection that builds a new package, and the formatter.
*/
module Entity {
  import opened Results
  import opened JavaText
  import opened Items
  import opened Records
  import opened Selection
  import opened Format

  class Package {
    var items: set<Item>
    var maxWeight: real

    /** `Package(Set<Item>, double)`. */
    constructor (items: set<Item>, maxWeight: real)
      ensures this.items == items && this.maxWeight == maxWeight
    {
      this.items := items;
      this.maxWeight := maxWeight;
    }

    /**
      `getItemNos`: "-" exactly when the package holds no item; otherwise one comma-separated
      number per item, in ascending order, each reading back as the number it was written from.
    */
    function GetItemNos(): (r: string)
      reads this
      ensures r == "-" <==> items == {}
      ensures items != {} ==>
        var pieces, nos := Split(r, ','), SortedNos(items);
        |pieces| == |nos| == |items|
        && (forall k :: 0 <= k < |pieces| ==> ParseInt(pieces[k]) == Some(nos[k]))
        && (forall i, j :: 0 <= i < j < |nos| ==> nos[i] <= nos[j])
        && (forall n :: multiset(nos)[n] == |Carrying(items, n)|)
    {
      if items != {} then
        forall n ensures multiset(SortedNos(items))[n] == |Carrying(items, n)| {
          SortedNosCounts(items, n);
        }
        FormatIds(items)
      else FormatIds(items)
    }

    /**
      `optimizePackage`: the items are visited in the order `HashSet` yields them after a
      sort by descending cost, and the swap subtracts the previous item's weight and adds the
      new one's. The result is a new package with the same limit, holding some of this
      package's items; this package is left as it was.
    */
    method OptimizePackage() returns (p: Package, ghost iteration: seq<Item>)
      ensures Enumerates(iteration, items)
      ensures fresh(p) && p.maxWeight == maxWeight
      ensures p.items == Choose(SubtractThenAdd, maxWeight, iteration)
      ensures p.items <= items && (p.items == {} <==> items == {})
    {
      var order := Enumerate(items);
      iteration := order;
      var chosen := Select(SubtractThenAdd, maxWeight, order);
      assert forall it :: it in iteration ==> it in multiset(items);
      p := new Package(chosen, maxWeight);
    }

    /**
      `createPackage`: the item set is emptied first; the limit is stored as soon as it is
      read, before it is checked against 100; the tokens are then read in turn, the light
      enough items kept. On an exception the fields keep what had been assigned by then.
    */
    method CreatePackage(testCase: string) returns (error: Option<Error>)
      modifies this
      ensures items == ItemsBeforeFailure(Refactored, testCase)
      ensures maxWeight == match ReadLimit(testCase) case Success(limit) => limit case Failure(_) => old(maxWeight)
      ensures error == match ParseRecord(Refactored, testCase) case Success(_) => None case Failure(e) => Some(e)
      ensures error.None? ==> ParseRecord(Refactored, testCase) == Success(Request(maxWeight, items))
    {
      items := {};
      var limit := ReadLimit(testCase);
      if limit.Failure? {
        return Some(limit.error);
      }
      maxWeight := limit.value;
      if maxWeight > MaxPackageWeight {
        return Some(LimitTooHeavy);
      }
      var weightAndItems := Split(testCase, ':');
      if |weightAndItems| < 2 {
        return Some(IndexOutOfBounds);
      }
      var tokens := SplitOnSpaces(Trim(weightAndItems[1]));
      assert ReadHeader(testCase) == Success(Header(maxWeight, tokens));
      items, error := GatherItems(Outcomes(Refactored, tokens), maxWeight);
    }
  }
}
