/**
  The formatter every copy ends with: "-" for an empty package, otherwise the item numbers
  in ascending order joined by commas (`items.stream().map(Item::getNo).sorted()
  .map(String::valueOf).collect(Collectors.joining(","))`).
*/
module Format {
  import opened Results
  import opened JavaText
  import opened Items

  /** The numbers the items carry. */
  function Numbers(items: set<Item>): set<Int32>
  {
    set it | it in items :: it.no
  }

  /** The items that carry number `n`: objects are distinct even when their numbers are not. */
  function Carrying(items: set<Item>, n: Int32): (r: set<Item>)
    ensures r <= items
    ensures forall it :: it in r <==> it in items && it.no == n
  {
    set it | it in items && it.no == n
  }

  /** `n` repeated `c` times. */
  function Repeat(n: Int32, c: nat): (r: seq<Int32>)
    ensures |r| == c && forall i :: 0 <= i < c ==> r[i] == n
    ensures forall k :: multiset(r)[k] == if k == n then c else 0
  {
    if c == 0 then [] else [n] + Repeat(n, c - 1)
  }

  /** Every non-empty finite set of numbers has a least element. */
  lemma MinExists(s: set<Int32>)
    requires s != {}
    ensures exists n :: n in s && forall m :: m in s ==> n <= m
  {
    var n := LeastElement(s);
  }

  /** A least element of a non-empty set, found by removing one element and comparing. */
  lemma {:induction false} LeastElement(s: set<Int32>) returns (n: Int32)
    requires s != {}
    ensures n in s && forall m :: m in s ==> n <= m
    decreases |s|
  {
    var x :| x in s;
    var rest := s - {x};
    if rest == {} {
      assert s == {x};
      n := x;
    } else {
      var r := LeastElement(rest);
      n := if x < r then x else r;
      forall m | m in s
        ensures n <= m
      {
        if m != x {
          assert m in rest;
        }
      }
    }
  }

  /** The least of a non-empty set of numbers. */
  function Least(s: set<Int32>): (n: Int32)
    requires s != {}
    ensures n in s && forall m :: m in s ==> n <= m
  {
    MinExists(s);
    var n :| n in s && forall m :: m in s ==> n <= m;
    n
  }

  /** A non-empty package carries some number. */
  lemma NumbersNonEmpty(items: set<Item>)
    requires items != {}
    ensures Numbers(items) != {}
  {
    var v :| v in items;
    assert v.no in Numbers(items);
  }

  /**
    `map(Item::getNo).sorted()`: the items' numbers in ascending order, each as often as
    items carry it. The least number comes first, once per item that carries it.
  */
  function SortedNos(items: set<Item>): (r: seq<Int32>)
    ensures forall i :: 0 <= i < |r| ==> r[i] in Numbers(items)
    ensures forall i, j :: 0 <= i < j < |r| ==> r[i] <= r[j]
    decreases |items|
  {
    if items == {} then []
    else
      NumbersNonEmpty(items);
      var n := Least(Numbers(items));
      var w :| w in items && w.no == n;
      assert w in Carrying(items, n);
      var rest := items - Carrying(items, n);
      assert Numbers(rest) <= Numbers(items);
      Repeat(n, |Carrying(items, n)|) + SortedNos(rest)
  }

  /** `map(String::valueOf)`: each number written out; no piece holds a comma and each reads back. */
  function Rendered(nos: seq<Int32>): (parts: seq<string>)
    ensures |parts| == |nos|
    ensures forall i :: 0 <= i < |nos| ==>
      parts[i] != "" && parts[i] != "-" && !Mentions(parts[i], {','}) && ParseInt(parts[i]) == Some(nos[i])
  {
    if nos == [] then []
    else
      IntToStringPlain(nos[0]);
      ParseIntOfIntToString(nos[0]);
      var rest := Rendered(nos[1..]);
      assert forall i :: 0 < i < |nos| ==> nos[i] == nos[1..][i - 1];
      [IntToString(nos[0])] + rest
  }

  /**
    `Collectors.joining(",")` over the written numbers, or "-" for an empty package. The
    output is "-" exactly when the package is empty; otherwise splitting it at commas and
    parsing each piece gives back the sorted numbers, one per item.
  */
  function FormatIds(items: set<Item>): (r: string)
    ensures r == "-" <==> items == {}
    ensures items != {} ==>
      var pieces, nos := Split(r, ','), SortedNos(items);
      |pieces| == |nos| == |items| && forall k :: 0 <= k < |pieces| ==> ParseInt(pieces[k]) == Some(nos[k])
  {
    if |items| == 0 then "-"
    else
      SortedNosLength(items);
      var parts := Rendered(SortedNos(items));
      SplitOfJoin(parts, ',');
      if |parts| > 1 then
        assert |Join(parts, ',')| >= |parts[0]| + 1;
        Join(parts, ',')
      else Join(parts, ',')
  }

  // ---------------------------------------------------------------------------
  // Lemmas

  /** Each number occurs in the sorted list exactly as many times as items carry it. */
  lemma {:induction false} SortedNosCounts(items: set<Item>, k: Int32)
    ensures multiset(SortedNos(items))[k] == |Carrying(items, k)|
    decreases |items|
  {
    if items == {} {
      assert Carrying(items, k) == {};
    } else {
      NumbersNonEmpty(items);
      var n := Least(Numbers(items));
      var w :| w in items && w.no == n;
      assert w in Carrying(items, n);
      var rest := items - Carrying(items, n);
      SortedNosCounts(rest, k);
      if k == n {
        assert Carrying(rest, k) == {};
      } else {
        assert Carrying(rest, k) == Carrying(items, k);
      }
    }
  }

  /** One number per item. */
  lemma {:induction false} SortedNosLength(items: set<Item>)
    ensures |SortedNos(items)| == |items|
    decreases |items|
  {
    if items != {} {
      NumbersNonEmpty(items);
      var n := Least(Numbers(items));
      var w :| w in items && w.no == n;
      assert w in Carrying(items, n);
      var rest := items - Carrying(items, n);
      SortedNosLength(rest);
      assert items == Carrying(items, n) + rest;
    }
  }

  /** `String.valueOf` never writes a comma, and never just a minus sign. */
  lemma IntToStringPlain(n: int)
    ensures !Mentions(IntToString(n), {','})
    ensures IntToString(n) != "-"
  {
    var s := IntToString(n);
    if n < 0 {
      assert |s| >= 2;
    }
  }
}
