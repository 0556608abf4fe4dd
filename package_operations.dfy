/**
  `operations.PackageOperations`: the formatter and the selection as free-standing
  operations on a package, and the loop that turns the lines of a test-case file into
  packages. The file itself is not read here: the lines are given.
*/
module Operations {
  import opened Results
  import opened JavaText
  import opened Items
  import opened Records
  import opened Selection
  import opened Format
  import opened Entity

  /** `getItemNosFromPackage`: the same text as the package's own `getItemNos`. */
  function GetItemNosFromPackage(p: Package): (r: string)
    reads p
    ensures r == "-" <==> p.items == {}
    ensures r == p.GetItemNos()
  {
    FormatIds(p.items)
  }

  /**
    `optimizePackage(Package)`: the same pass as `Package.optimizePackage`, subtracting the
    previous item's weight and adding the new one's on a swap.
  */
  method OptimizePackage(p: Package) returns (q: Package, ghost iteration: seq<Item>)
    ensures Enumerates(iteration, p.items)
    ensures fresh(q) && q.maxWeight == p.maxWeight
    ensures q.items == Choose(SubtractThenAdd, p.maxWeight, iteration)
    ensures q.items <= p.items && (q.items == {} <==> p.items == {})
  {
    var order := Enumerate(p.items);
    iteration := order;
    var chosen := Select(SubtractThenAdd, p.maxWeight, order);
    assert forall it :: it in iteration ==> it in multiset(p.items);
    q := new Package(chosen, p.maxWeight);
  }

  /**
    The body of the line loop for one non-empty line: read the limit and reject it above
    100, then read the tokens and keep the light enough items in a new package.
  */
  method PackageFromLine(testCase: string) returns (r: Result<Package, Error>)
    ensures r.Success? <==> ParseRecord(Refactored, testCase).Success?
    ensures r.Success? ==> fresh(r.value) && ParseRecord(Refactored, testCase).value == Request(r.value.maxWeight, r.value.items)
    ensures r.Failure? ==> ParseRecord(Refactored, testCase) == Failure(r.error)
  {
    var limit := ReadLimit(testCase);
    if limit.Failure? {
      return Failure(limit.error);
    }
    var packageWeightLimit := limit.value;
    if packageWeightLimit > MaxPackageWeight {
      return Failure(LimitTooHeavy);
    }
    var weightAndItems := Split(testCase, ':');
    if |weightAndItems| < 2 {
      return Failure(IndexOutOfBounds);
    }
    var tokens := SplitOnSpaces(Trim(weightAndItems[1]));
    assert ReadHeader(testCase) == Success(Header(packageWeightLimit, tokens));
    var items, error := GatherItems(Outcomes(Refactored, tokens), packageWeightLimit);
    if error.Some? {
      return Failure(error.value);
    }
    var p := new Package(items, packageWeightLimit);
    return Success(p);
  }

  /** What reading each record gives, record by record: one outcome per record. */
  function Parsed(records: seq<string>): (r: seq<Result<Request, Error>>)
    ensures |r| == |records|
  {
    if records == [] then [] else Parsed(records[..|records| - 1]) + [ParseRecord(Refactored, records[|records| - 1])]
  }

  /**
    Reading records one after another; the first that fails aborts the whole batch. A batch
    read gives one request per record; a batch that fails fails with some record's exception.
  */
  function ReadAll(outcomes: seq<Result<Request, Error>>): (r: Result<seq<Request>, Error>)
    ensures r.Success? ==> |r.value| == |outcomes|
    ensures r.Failure? ==> Failure(r.error) in outcomes
  {
    if outcomes == [] then Success([])
    else match ReadAll(outcomes[..|outcomes| - 1])
      case Failure(e) => Failure(e)
      case Success(requests) =>
        match outcomes[|outcomes| - 1]
        case Failure(e) => Failure(e)
        case Success(request) => Success(requests + [request])
  }

  /**
    The requests a file's lines make: one per non-empty line, in line order, or the
    exception of a non-empty line that cannot be read.
  */
  function Requests(lines: seq<string>): (r: Result<seq<Request>, Error>)
    ensures r.Success? ==> |r.value| == |NonEmpty(lines)|
    ensures r.Failure? ==> exists line :: line in lines && line != "" && ParseRecord(Refactored, line) == Failure(r.error)
  {
    var r := ReadAll(Parsed(NonEmpty(lines)));
    if r.Failure? then
      FailingRecord(lines, r.error);
      r
    else r
  }

  /** Each package holds the limit and the candidates of the request at the same position. */
  predicate Holds(packages: seq<Package>, requests: seq<Request>)
    reads packages
  {
    |packages| == |requests| &&
    forall j :: 0 <= j < |requests| ==> packages[j].maxWeight == requests[j].limit && packages[j].items == requests[j].candidates
  }

  /**
    The line loop of `getPackagesFromTestCaseFile`: empty lines are skipped, each other line
    appends one package, and the first line that cannot be read aborts with its exception.
  */
  method PackagesFromLines(lines: seq<string>) returns (r: Result<seq<Package>, Error>)
    ensures r.Failure? <==> Requests(lines).Failure?
    ensures r.Failure? ==> Requests(lines) == Failure(r.error)
    ensures r.Success? ==> Holds(r.value, Requests(lines).value)
  {
    var packages: seq<Package> := [];
    ghost var requests: seq<Request> := [];
    var i := 0;
    while i < |lines|
      invariant 0 <= i <= |lines|
      invariant Requests(lines[..i]) == Success(requests)
      invariant Holds(packages, requests)
    {
      var line := lines[i];
      Slices(lines, i);
      if |line| > 0 {
        var p := PackageFromLine(line);
        if p.Failure? {
          FailingLine(lines, i, p.error);
          return Failure(p.error);
        }
        var request := Request(p.value.maxWeight, p.value.items);
        ReadLine(lines[..i], requests, line, request);
        HoldsSnoc(packages, requests, p.value);
        packages := packages + [p.value];
        requests := requests + [request];
      } else {
        SkipEmptyLine(lines[..i], line);
      }
      i := i + 1;
    }
    Slices(lines, |lines|);
    return Success(packages);
  }

  // ---------------------------------------------------------------------------
  // Lemmas

  /** A package appended with its own request keeps the correspondence. */
  lemma HoldsSnoc(packages: seq<Package>, requests: seq<Request>, p: Package)
    requires Holds(packages, requests)
    ensures Holds(packages + [p], requests + [Request(p.maxWeight, p.items)])
  {
  }

  /** A sequence cut at position `i`. */
  lemma Slices<T>(s: seq<T>, i: nat)
    requires i <= |s|
    ensures i == |s| ==> s[..i] == s
    ensures i < |s| ==> s[..i + 1] == s[..i] + [s[i]] && s[..i] + [s[i]] + s[i + 1..] == s
  {
  }

  /** A line at the end adds itself to the non-empty lines when it is not empty. */
  lemma {:induction false} NonEmptySnoc(lines: seq<string>, line: string)
    ensures line == "" ==> NonEmpty(lines + [line]) == NonEmpty(lines)
    ensures line != "" ==> NonEmpty(lines + [line]) == NonEmpty(lines) + [line]
    decreases |lines|
  {
    if lines != [] {
      assert (lines + [line])[0] == lines[0];
      assert (lines + [line])[1..] == lines[1..] + [line];
      NonEmptySnoc(lines[1..], line);
    }
  }

  /** The non-empty lines of two blocks of lines, one after the other. */
  lemma {:induction false} NonEmptyAppend(a: seq<string>, b: seq<string>)
    ensures NonEmpty(a + b) == NonEmpty(a) + NonEmpty(b)
    decreases |a|
  {
    if a == [] {
      assert a + b == b;
    } else {
      assert (a + b)[0] == a[0];
      assert (a + b)[1..] == a[1..] + b;
      NonEmptyAppend(a[1..], b);
    }
  }

  /** A failure stays a failure, with the same exception, whatever outcomes follow. */
  lemma {:induction false} ReadAllFails(outcomes: seq<Result<Request, Error>>, more: seq<Result<Request, Error>>)
    requires ReadAll(outcomes).Failure?
    ensures ReadAll(outcomes + more) == ReadAll(outcomes)
    decreases |more|
  {
    if more == [] {
      assert outcomes + more == outcomes;
    } else {
      var all := outcomes + more;
      assert all[..|all| - 1] == outcomes + more[..|more| - 1];
      ReadAllFails(outcomes, more[..|more| - 1]);
    }
  }

  /**
    Reading succeeds exactly when every record can be read, and then gives one request per
    record, in order.
  */
  lemma {:induction false} ReadAllSucceeds(outcomes: seq<Result<Request, Error>>)
    ensures ReadAll(outcomes).Success? <==> forall j :: 0 <= j < |outcomes| ==> outcomes[j].Success?
    ensures ReadAll(outcomes).Success? ==>
      |ReadAll(outcomes).value| == |outcomes| &&
      forall j :: 0 <= j < |outcomes| ==> ReadAll(outcomes).value[j] == outcomes[j].value
    decreases |outcomes|
  {
    if outcomes != [] {
      var init := outcomes[..|outcomes| - 1];
      ReadAllSucceeds(init);
      assert forall j :: 0 <= j < |init| ==> init[j] == outcomes[j];
    }
  }

  /** The batch aborts with the exception of the first record that cannot be read. */
  lemma ReadAllFirstError(outcomes: seq<Result<Request, Error>>, k: nat)
    requires k < |outcomes|
    requires forall j :: 0 <= j < k ==> outcomes[j].Success?
    requires outcomes[k].Failure?
    ensures ReadAll(outcomes) == Failure(outcomes[k].error)
  {
    var init := outcomes[..k];
    ReadAllSucceeds(init);
    assert outcomes[..k + 1][..k] == init;
    assert outcomes == outcomes[..k + 1] + outcomes[k + 1..];
    ReadAllFails(outcomes[..k + 1], outcomes[k + 1..]);
  }

  /** Record by record, `Parsed` is `ParseRecord`. */
  lemma {:induction false} ParsedAt(records: seq<string>, j: nat)
    requires j < |records|
    ensures Parsed(records)[j] == ParseRecord(Refactored, records[j])
    decreases |records|
  {
    if j < |records| - 1 {
      ParsedAt(records[..|records| - 1], j);
    }
  }

  /** An exception among the outcomes of a file's records is that of one of its non-empty lines. */
  lemma FailingRecord(lines: seq<string>, e: Error)
    requires Failure(e) in Parsed(NonEmpty(lines))
    ensures exists line :: line in lines && line != "" && ParseRecord(Refactored, line) == Failure(e)
  {
    var records := NonEmpty(lines);
    var j :| 0 <= j < |records| && Parsed(records)[j] == Failure(e);
    ParsedAt(records, j);
    assert records[j] in lines && records[j] != "";
  }

  /** `Parsed` of two blocks of records, one after the other. */
  lemma {:induction false} ParsedAppend(a: seq<string>, b: seq<string>)
    ensures Parsed(a + b) == Parsed(a) + Parsed(b)
    decreases |b|
  {
    if b == [] {
      assert a + b == a;
    } else {
      assert (a + b)[..|a + b| - 1] == a + b[..|b| - 1];
      ParsedAppend(a, b[..|b| - 1]);
    }
  }

  /** An empty line changes nothing. */
  lemma SkipEmptyLine(lines: seq<string>, line: string)
    requires line == ""
    ensures Requests(lines + [line]) == Requests(lines)
  {
    NonEmptySnoc(lines, line);
  }

  /** A non-empty line after lines that could all be read adds its request at the end. */
  lemma ReadLine(lines: seq<string>, requests: seq<Request>, line: string, request: Request)
    requires Requests(lines) == Success(requests)
    requires line != "" && ParseRecord(Refactored, line) == Success(request)
    ensures Requests(lines + [line]) == Success(requests + [request])
  {
    NonEmptySnoc(lines, line);
    ParsedAppend(NonEmpty(lines), [line]);
  }

  /**
    When every line before line `i` can be read and line `i` is non-empty and cannot, the
    whole file fails with line `i`'s exception, whatever comes after it.
  */
  lemma FailingLine(lines: seq<string>, i: nat, e: Error)
    requires i < |lines| && Requests(lines[..i]).Success?
    requires lines[i] != "" && ParseRecord(Refactored, lines[i]) == Failure(e)
    ensures Requests(lines) == Failure(e)
  {
    LineFails(lines[..i], lines[i], e);
    RequestsFail(lines[..i] + [lines[i]], lines[i + 1..]);
    Slices(lines, i);
  }

  /** A non-empty line that cannot be read, after lines that could, fails with its exception. */
  lemma LineFails(lines: seq<string>, line: string, e: Error)
    requires Requests(lines).Success?
    requires line != "" && ParseRecord(Refactored, line) == Failure(e)
    ensures Requests(lines + [line]) == Failure(e)
  {
    NonEmptySnoc(lines, line);
    ParsedAppend(NonEmpty(lines), [line]);
  }

  /** Once a line fails, the lines after it are never read. */
  lemma RequestsFail(lines: seq<string>, more: seq<string>)
    requires Requests(lines).Failure?
    ensures Requests(lines + more) == Requests(lines)
  {
    NonEmptyAppend(lines, more);
    ParsedAppend(NonEmpty(lines), NonEmpty(more));
    ReadAllFails(Parsed(NonEmpty(lines)), Parsed(NonEmpty(more)));
  }

  /**
    A file whose every non-empty line can be read gives one package per non-empty line, in
    line order; otherwise the first non-empty line that cannot be read decides the exception.
  */
  lemma OnePackagePerLine(lines: seq<string>)
    ensures Requests(lines).Success? <==>
      forall j :: 0 <= j < |NonEmpty(lines)| ==> ParseRecord(Refactored, NonEmpty(lines)[j]).Success?
    ensures Requests(lines).Success? ==>
      |Requests(lines).value| == |NonEmpty(lines)| &&
      forall j :: 0 <= j < |NonEmpty(lines)| ==> ParseRecord(Refactored, NonEmpty(lines)[j]) == Success(Requests(lines).value[j])
  {
    assert Requests(lines) == ReadAll(Parsed(NonEmpty(lines)));
    RecordsRead(NonEmpty(lines));
  }

  /** Reading records succeeds exactly when each one can be read, and then gives their requests in order. */
  lemma RecordsRead(records: seq<string>)
    ensures ReadAll(Parsed(records)).Success? <==> forall j :: 0 <= j < |records| ==> ParseRecord(Refactored, records[j]).Success?
    ensures ReadAll(Parsed(records)).Success? ==>
      |ReadAll(Parsed(records)).value| == |records| &&
      forall j :: 0 <= j < |records| ==> ParseRecord(Refactored, records[j]) == Success(ReadAll(Parsed(records)).value[j])
  {
    ReadAllSucceeds(Parsed(records));
    forall j | 0 <= j < |records| ensures Parsed(records)[j] == ParseRecord(Refactored, records[j]) {
      ParsedAt(records, j);
    }
  }

  /** The exception a file aborts with is that of its first non-empty line that cannot be read. */
  lemma FirstFailingLine(lines: seq<string>, k: nat)
    requires var records := NonEmpty(lines);
      k < |records| && (forall j :: 0 <= j < k ==> ParseRecord(Refactored, records[j]).Success?)
      && ParseRecord(Refactored, records[k]).Failure?
    ensures Requests(lines) == Failure(ParseRecord(Refactored, NonEmpty(lines)[k]).error)
  {
    var records := NonEmpty(lines);
    forall j | 0 <= j <= k ensures Parsed(records)[j] == ParseRecord(Refactored, records[j]) {
      ParsedAt(records, j);
    }
    ReadAllFirstError(Parsed(records), k);
  }
}
