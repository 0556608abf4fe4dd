/**
  `PackageChallenge.packageItems`, the copy of the pipeline the program runs: it reads one
  record, deletes the parentheses of every token in place, reads the items, selects with a
  swap that only subtracts, and formats the chosen numbers.
*/
module Challenge {
  import opened Results
  import opened JavaText
  import opened Items
  import opened Records
  import opened Selection
  import opened Format

  /** The first loop of `packageItems`: every slot of the token array loses its parentheses, in place. */
  method StripParentheses(a: array<string>)
    modifies a
    ensures forall k :: 0 <= k < a.Length ==> a[k] == Unparenthesized(old(a[k]))
  {
    var count := 0;
    while count < a.Length
      invariant 0 <= count <= a.Length
      invariant forall k :: 0 <= k < count ==> a[k] == Unparenthesized(old(a[k]))
      invariant forall k :: count <= k < a.Length ==> a[k] == old(a[k])
    {
      a[count] := Unparenthesized(a[count]);
      count := count + 1;
    }
  }

  /**
    `packageItems`: the record's exception, or the formatted selection over the candidates
    in one of `HashSet`'s iteration orders (reported in `iteration`), "-" when no item is
    light enough.
  */
  method PackageItems(testCase: string) returns (r: Result<string, Error>, ghost iteration: seq<Item>)
    ensures match ParseRecord(Live, testCase)
      case Failure(e) => r == Failure(e)
      case Success(q) =>
        && Enumerates(iteration, q.candidates)
        && r == Success(FormatIds(Choose(SubtractOnly, q.limit, iteration)))
        && (r.value == "-" <==> q.candidates == {})
  {
    iteration := [];
    var limit := ReadLimit(testCase);
    if limit.Failure? {
      return Failure(limit.error), iteration;
    }
    var weightLimit := limit.value;
    if weightLimit > MaxPackageWeight {
      return Failure(LimitTooHeavy), iteration;
    }
    var weightAndItems := Split(testCase, ':');
    if |weightAndItems| < 2 {
      return Failure(IndexOutOfBounds), iteration;
    }
    var tokens := SplitOnSpaces(Trim(weightAndItems[1]));
    assert ReadHeader(testCase) == Success(Header(weightLimit, tokens));
    var itemsNWC := new string[|tokens|](k requires 0 <= k < |tokens| => tokens[k]);
    StripParentheses(itemsNWC);

    var items, error := ReadItems(itemsNWC, Outcomes(Live, tokens), weightLimit);
    if error.Some? {
      return Failure(error.value), iteration;
    }
    r, iteration := PackItems(items, weightLimit);
  }

  /**
    The second loop of `packageItems`: each stripped token is read as an item in turn; the
    first that cannot be read stops the loop with its exception, and an item joins the set
    only when it weighs no more than the limit.
  */
  method ReadItems(itemsNWC: array<string>, ghost outcomes: seq<Result<Item, Error>>, weightLimit: real)
    returns (items: set<Item>, error: Option<Error>)
    requires Keyed(outcomes) && |outcomes| == itemsNWC.Length
    requires forall k :: 0 <= k < itemsNWC.Length ==> outcomes[k] == LiveItem(itemsNWC[k], k)
    ensures Gathered(items, error) == Gather(outcomes, weightLimit, |outcomes|)
  {
    items, error := {}, None;
    var i := 0;
    while i < itemsNWC.Length
      invariant 0 <= i <= itemsNWC.Length
      invariant Gather(outcomes, weightLimit, i) == Gathered(items, None) && error.None?
    {
      items, error := ReadItem(itemsNWC, outcomes, weightLimit, i, items);
      if error.Some? {
        GatherStops(outcomes, weightLimit, i + 1, |outcomes|);
        return;
      }
      i := i + 1;
    }
  }

  /** The body of the second loop, for slot `i`: read the item, keep it if light enough, or stop. */
  method ReadItem(itemsNWC: array<string>, ghost outcomes: seq<Result<Item, Error>>, weightLimit: real, i: nat, items: set<Item>)
    returns (items': set<Item>, error: Option<Error>)
    requires Keyed(outcomes) && |outcomes| == itemsNWC.Length && i < itemsNWC.Length
    requires outcomes[i] == LiveItem(itemsNWC[i], i)
    requires Gather(outcomes, weightLimit, i) == Gathered(items, None)
    ensures Gather(outcomes, weightLimit, i + 1) == Gathered(items', error)
  {
    var item := LiveItem(itemsNWC[i], i);
    items', error := items, None;
    if item.Failure? {
      error := Some(item.error);
    } else if item.value.weight <= weightLimit {
      items' := items + {item.value};
    }
  }

  /**
    The end of `packageItems`: "-" straight away when no item is a candidate; otherwise the
    selection over one of `HashSet`'s iteration orders, its numbers sorted and joined.
  */
  method PackItems(items: set<Item>, weightLimit: real) returns (r: Result<string, Error>, ghost iteration: seq<Item>)
    ensures Enumerates(iteration, items)
    ensures r == Success(FormatIds(Choose(SubtractOnly, weightLimit, iteration)))
    ensures r.value == "-" <==> items == {}
  {
    iteration := [];
    if |items| == 0 {
      return Success("-"), iteration;
    }
    var order := Enumerate(items);
    iteration := order;
    var chosen := Select(SubtractOnly, weightLimit, order);
    r := Success(FormatIds(chosen));
  }
}
