/**
  Reading one record "<limit> : (<no>,<weight>,<mark><cost>) ...": the weight limit, its
  bound, the item tokens, and the loop that turns tokens into items and keeps those no
  heavier than the limit. Three copies of this code exist; they differ only in how a token
  becomes an item, which `Dialect` selects.
*/
module Records {
  import opened Results
  import opened JavaText
  import opened Items

  /**
    `Live` is the inline copy in `PackageChallenge.packageItems`; `Refactored` is the copy in
    `Package.createPackage` and in `PackageOperations.getPackagesFromTestCaseFile`, both of
    which read an item the way `ItemOperations.createItem` does.
  */
  datatype Dialect = Live | Refactored

  const Parentheses: set<char> := {'(', ')'}
  const Euro: char := '\U{20AC}'

  /**
    `token.trim().substring(1, token.length() - 1)`: the first and last characters go,
    whatever they are; the end index is computed from the untrimmed token.
  */
  function StripEnclosing(token: string): (r: Result<string, Error>)
    ensures r.Success? <==> |token| >= 2 && |token| - 1 <= |Trim(token)|
    ensures r.Success? ==> r.value == Trim(token)[1..|token| - 1]
    ensures Trim(token) == token && |token| >= 2 ==> r == Success(token[1..|token| - 1])
    ensures r.Failure? ==> r.error == IndexOutOfBounds
  {
    var trimmed := Trim(token);
    if |token| < 2 || |token| - 1 > |trimmed| then Failure(IndexOutOfBounds)
    else Success(trimmed[1..|token| - 1])
  }

  /**
    How `PackageChallenge.packageItems` reads a token once its parentheses are gone: split
    at commas, `Integer.parseInt` on the untrimmed first field, `Double.parseDouble` on the
    second, and on the third after every euro sign in it has been deleted.
  */
  function LiveItem(token: string, key: nat): (r: Result<Item, Error>)
    ensures r.Success? ==> r.value.key == key && r.value.no <= MaxItemNo && r.value.weight <= MaxItemWeight && r.value.cost <= MaxItemCost
  {
    LiveItemOfFields(Split(token, ','), key)
  }

  /** The part of the live reader after the split at commas, on the array of fields. */
  function LiveItemOfFields(fields: seq<string>, key: nat): (r: Result<Item, Error>)
    ensures r.Success? ==> |fields| >= 3 && r.value.key == key && r.value.no <= MaxItemNo && r.value.weight <= MaxItemWeight && r.value.cost <= MaxItemCost
  {
    if |fields| < 1 then Failure(IndexOutOfBounds)
    else match ParseInt(fields[0])
      case None => Failure(NumberFormat)
      case Some(no) =>
        if |fields| < 2 then Failure(IndexOutOfBounds)
        else match ParseDouble(fields[1])
          case None => Failure(NumberFormat)
          case Some(weight) =>
            if |fields| < 3 then Failure(IndexOutOfBounds)
            else match ParseDouble(RemoveChars(fields[2], {Euro}))
              case None => Failure(NumberFormat)
              case Some(cost) => Validate(no, weight, cost, key)
  }

  /**
    One item token, as a dialect reads it. The live copy deletes every parenthesis of the
    trimmed token (the slot of the token array is overwritten with the result); the
    refactored copies cut the first and last character and call `createItem`.
  */
  function ReadToken(d: Dialect, token: string, key: nat): (r: Result<Item, Error>)
    ensures r.Success? ==> r.value.key == key && r.value.no <= MaxItemNo && r.value.weight <= MaxItemWeight && r.value.cost <= MaxItemCost
  {
    match d
    case Live => LiveItem(Unparenthesized(token), key)
    case Refactored =>
      match StripEnclosing(token)
      case Failure(e) => Failure(e)
      case Success(description) => CreateItem(description, key)
  }

  /**
    `token.trim().replaceAll("[\\(\\)]", "")`: no parenthesis is left, and every other
    character of the trimmed token is kept as often as it occurs.
  */
  function Unparenthesized(token: string): (r: string)
    ensures !Mentions(r, Parentheses)
    ensures forall c :: c !in Parentheses ==> multiset(r)[c] == multiset(Trim(token))[c]
  {
    RemoveChars(Trim(token), Parentheses)
  }

  /**
    `Double.parseDouble(line.split(":")[0].trim())`: reading the limit can only fail with a
    missing piece or a malformed number.
  */
  function ReadLimit(line: string): (r: Result<real, Error>)
    ensures r.Failure? ==> r.error == IndexOutOfBounds || r.error == NumberFormat
  {
    var parts := Split(line, ':');
    if |parts| < 1 then Failure(IndexOutOfBounds)
    else match ParseDouble(Trim(parts[0]))
      case None => Failure(NumberFormat)
      case Some(limit) => Success(limit)
  }

  /** A record's weight limit and its item tokens. */
  datatype Header = Header(limit: real, tokens: seq<string>)

  /**
    The limit is read and checked against 100 before the text after the colon is looked
    at; the tokens are that text, trimmed and split at runs of whitespace.
  */
  function ReadHeader(line: string): (r: Result<Header, Error>)
    ensures r.Success? ==> ReadLimit(line) == Success(r.value.limit) && r.value.limit <= MaxPackageWeight
    ensures ReadLimit(line).Success? && ReadLimit(line).value > MaxPackageWeight ==> r == Failure(LimitTooHeavy)
    ensures ReadLimit(line).Failure? ==> r == Failure(ReadLimit(line).error)
  {
    match ReadLimit(line)
    case Failure(e) => Failure(e)
    case Success(limit) =>
      if limit > MaxPackageWeight then Failure(LimitTooHeavy)
      else
        var parts := Split(line, ':');
        if |parts| < 2 then Failure(IndexOutOfBounds)
        else Success(Header(limit, SplitOnSpaces(Trim(parts[1]))))
  }

  /** What reading each token gives, token by token: the item built from it or the exception. */
  function Outcomes(d: Dialect, tokens: seq<string>): (r: seq<Result<Item, Error>>)
    ensures |r| == |tokens| && Keyed(r)
  {
    seq(|tokens|, k requires 0 <= k < |tokens| => ReadToken(d, tokens[k], k))
  }

  /** The item read from the `k`th token is the object of identity `k`. */
  predicate Keyed(outcomes: seq<Result<Item, Error>>)
  {
    forall k :: 0 <= k < |outcomes| && outcomes[k].Success? ==> outcomes[k].value.key == k
  }

  /** The items the token loop has collected so far and the exception that stopped it, if any. */
  datatype Gathered = Gathered(items: set<Item>, error: Option<Error>)

  /**
    The token loop over the first `k` outcomes: an item joins the set when it weighs no more
    than the limit; the first token that could not be read stops the loop.
  */
  function Gather(outcomes: seq<Result<Item, Error>>, limit: real, k: nat): (g: Gathered)
    requires k <= |outcomes| && Keyed(outcomes)
    ensures forall it :: it in g.items ==> it.weight <= limit && it.key < k && outcomes[it.key] == Success(it)
  {
    if k == 0 then Gathered({}, None)
    else
      var g := Gather(outcomes, limit, k - 1);
      if g.error.Some? then g
      else match outcomes[k - 1]
        case Failure(e) => Gathered(g.items, Some(e))
        case Success(item) => if item.weight <= limit then Gathered(g.items + {item}, None) else g
  }

  /** A record read: its weight limit and the candidate items. */
  datatype Request = Request(limit: real, candidates: set<Item>)

  /**
    One record read into a request, or the exception that aborts it. A request's limit is
    at most 100, and each candidate is valid and weighs no more than the limit.
  */
  function ParseRecord(d: Dialect, line: string): (r: Result<Request, Error>)
    ensures r.Success? ==> ReadHeader(line).Success? && r.value.limit == ReadHeader(line).value.limit
    ensures r.Success? ==> r.value.limit <= MaxPackageWeight
    ensures r.Success? ==> forall it :: it in r.value.candidates ==>
      it.weight <= r.value.limit && it.no <= MaxItemNo && it.cost <= MaxItemCost
  {
    match ReadHeader(line)
    case Failure(e) => Failure(e)
    case Success(h) =>
      var g := Gather(Outcomes(d, h.tokens), h.limit, |h.tokens|);
      if g.error.Some? then Failure(g.error.value) else Success(Request(h.limit, g.items))
  }

  /**
    The items a reader that throws is left holding: none when the header fails, otherwise
    those collected before the failing token.
  */
  function ItemsBeforeFailure(d: Dialect, line: string): (r: set<Item>)
    ensures ReadHeader(line).Failure? ==> r == {}
    ensures ReadHeader(line).Success? ==> forall it :: it in r ==> it.weight <= ReadHeader(line).value.limit
    ensures ParseRecord(d, line).Success? ==> r == ParseRecord(d, line).value.candidates
  {
    match ReadHeader(line)
    case Failure(_) => {}
    case Success(h) => Gather(Outcomes(d, h.tokens), h.limit, |h.tokens|).items
  }

  /**
    The token loop of the refactored copies: each token is read in turn; the first that
    cannot be read stops the loop with its exception, and an item joins the set only when it
    weighs no more than the limit.
  */
  method GatherItems(outcomes: seq<Result<Item, Error>>, limit: real) returns (items: set<Item>, error: Option<Error>)
    requires Keyed(outcomes)
    ensures Gathered(items, error) == Gather(outcomes, limit, |outcomes|)
  {
    items, error := {}, None;
    var i := 0;
    while i < |outcomes|
      invariant 0 <= i <= |outcomes|
      invariant Gather(outcomes, limit, i) == Gathered(items, None)
    {
      var outcome := outcomes[i];
      if outcome.Failure? {
        error := Some(outcome.error);
        GatherStops(outcomes, limit, i + 1, |outcomes|);
        return;
      }
      if outcome.value.weight <= limit {
        items := items + {outcome.value};
      }
      i := i + 1;
    }
  }

  // ---------------------------------------------------------------------------
  // Lemmas

  /** Once a token fails, later tokens change nothing. */
  lemma {:induction false} GatherStops(outcomes: seq<Result<Item, Error>>, limit: real, k: nat, n: nat)
    requires k <= n <= |outcomes| && Keyed(outcomes)
    requires Gather(outcomes, limit, k).error.Some?
    ensures Gather(outcomes, limit, n) == Gather(outcomes, limit, k)
  {
    if n > k {
      GatherStops(outcomes, limit, k, n - 1);
    }
  }

  /** The loop runs to the end exactly when every token can be read. */
  lemma {:induction false} GatherSucceeds(outcomes: seq<Result<Item, Error>>, limit: real, n: nat)
    requires n <= |outcomes| && Keyed(outcomes)
    ensures Gather(outcomes, limit, n).error.None? <==> forall k :: 0 <= k < n ==> outcomes[k].Success?
  {
    if n > 0 {
      GatherSucceeds(outcomes, limit, n - 1);
      if Gather(outcomes, limit, n - 1).error.Some? {
        GatherStops(outcomes, limit, n - 1, n);
      }
    }
  }

  /** The first token that cannot be read decides the error, whatever follows it. */
  lemma GatherFirstError(outcomes: seq<Result<Item, Error>>, limit: real, k: nat, n: nat)
    requires k < n <= |outcomes| && Keyed(outcomes)
    requires forall j :: 0 <= j < k ==> outcomes[j].Success?
    requires outcomes[k].Failure?
    ensures Gather(outcomes, limit, n).error == Some(outcomes[k].error)
  {
    GatherSucceeds(outcomes, limit, k);
    GatherStops(outcomes, limit, k + 1, n);
  }

  /**
    When the loop runs to the end, the set holds exactly the items read that weigh no more
    than the limit; heavier ones are dropped without error.
  */
  lemma {:induction false} GatherKeepsLight(outcomes: seq<Result<Item, Error>>, limit: real, n: nat, it: Item)
    requires n <= |outcomes| && Keyed(outcomes)
    requires Gather(outcomes, limit, n).error.None?
    ensures it in Gather(outcomes, limit, n).items <==>
      it.key < n && outcomes[it.key] == Success(it) && it.weight <= limit
  {
    if n > 0 {
      if Gather(outcomes, limit, n - 1).error.None? {
        GatherKeepsLight(outcomes, limit, n - 1, it);
      }
    }
  }

  /** A record whose header can be read succeeds exactly when every token can be read. */
  lemma ParseRecordSucceeds(d: Dialect, line: string)
    requires ReadHeader(line).Success?
    ensures var h := ReadHeader(line).value;
      ParseRecord(d, line).Success? <==> forall k :: 0 <= k < |h.tokens| ==> Outcomes(d, h.tokens)[k].Success?
  {
    var h := ReadHeader(line).value;
    GatherSucceeds(Outcomes(d, h.tokens), h.limit, |h.tokens|);
  }

  /**
    When a record is read, its limit is the header's and its candidates are exactly the
    tokens' items that weigh no more than the limit.
  */
  lemma ParseRecordCandidates(d: Dialect, line: string, it: Item)
    requires ParseRecord(d, line).Success?
    ensures ReadHeader(line).Success?
    ensures var h := ReadHeader(line).value; var r := ParseRecord(d, line).value;
      && r.limit == h.limit
      && (it in r.candidates <==> it.key < |h.tokens| && Outcomes(d, h.tokens)[it.key] == Success(it) && it.weight <= h.limit)
  {
    var h := ReadHeader(line).value;
    GatherKeepsLight(Outcomes(d, h.tokens), h.limit, |h.tokens|, it);
  }

  /**
    Tokens are read before the weight filter: the first token that cannot be read (an item
    number above 15, say) aborts the record even when that item would have been dropped for
    its weight.
  */
  lemma ParseRecordFirstError(d: Dialect, line: string, k: nat)
    requires ReadHeader(line).Success?
    requires var h := ReadHeader(line).value;
      k < |h.tokens| && (forall j :: 0 <= j < k ==> Outcomes(d, h.tokens)[j].Success?) && Outcomes(d, h.tokens)[k].Failure?
    ensures var h := ReadHeader(line).value;
      ParseRecord(d, line) == Failure(Outcomes(d, h.tokens)[k].error)
  {
    var h := ReadHeader(line).value;
    GatherFirstError(Outcomes(d, h.tokens), h.limit, k, |h.tokens|);
  }

  /**
    A limit above 100 aborts the record before any token is read: the text after the colon
    does not matter.
  */
  lemma LimitCheckedFirst(d: Dialect, head: string, rest: string)
    requires !Mentions(head, {':'})
    requires ParseDouble(Trim(head)).Some? && ParseDouble(Trim(head)).value > MaxPackageWeight
    ensures ParseRecord(d, head + [':'] + rest) == Failure(LimitTooHeavy)
  {
    assert head != [];
    SplitFirstPiece(head, ':', rest);
  }

  /** The limit is the number written before the first colon, whatever follows the colon. */
  lemma ReadLimitOf(head: string, rest: string, limit: real)
    requires head != [] && !Mentions(head, {':'})
    requires ParseDouble(Trim(head)) == Some(limit)
    ensures ReadLimit(head + [':'] + rest) == Success(limit)
  {
    SplitFirstPiece(head, ':', rest);
  }

  /**
    A record "limit : t1 t2 ..." with a limit of at most 100 reads as that limit and exactly
    the tokens written after the colon, in their order.
  */
  lemma ReadHeaderOf(head: string, rest: string, tokens: seq<string>, limit: real)
    requires head != [] && !Mentions(head, {':'}) && !Mentions(rest, {':'})
    requires ParseDouble(Trim(head)) == Some(limit) && limit <= MaxPackageWeight
    requires |tokens| >= 1 && Trim(rest) == Join(tokens, ' ')
    requires forall i :: 0 <= i < |tokens| ==> tokens[i] != "" && !Mentions(tokens[i], Spaces)
    ensures ReadHeader(head + [':'] + rest) == Success(Header(limit, tokens))
  {
    ReadLimitOf(head, rest, limit);
    JoinNotEmpty(tokens);
    ColonSplit(head, rest);
    SplitOnSpacesOfJoin(tokens);
  }

  /** Joining tokens whose first one is not empty gives a non-empty text. */
  lemma JoinNotEmpty(tokens: seq<string>)
    requires |tokens| >= 1 && tokens[0] != ""
    ensures Join(tokens, ' ') != ""
  {
    if |tokens| > 1 {
      assert |Join(tokens, ' ')| >= |tokens[0]|;
    }
  }

  /** A line with exactly one colon, text on both sides, splits into those two texts. */
  lemma ColonSplit(head: string, rest: string)
    requires head != [] && rest != [] && !Mentions(head, {':'}) && !Mentions(rest, {':'})
    ensures Split(head + [':'] + rest, ':') == [head, rest]
  {
    assert Join([head, rest], ':') == head + [':'] + rest;
    SplitOfJoin([head, rest], ':');
  }

  /**
    The live copy on a well-formed token "n,w,c": the fields are parsed untrimmed and the
    cost after its euro signs are deleted; the item is built exactly when n <= 15, w <= 100
    and c <= 100, and otherwise the first bound broken, number, weight, cost, is reported.
  */
  lemma LiveItemOfWellFormed(a: string, b: string, d: string, key: nat)
    requires !Mentions(a, {','}) && !Mentions(b, {','}) && !Mentions(d, {','}) && d != ""
    requires ParseInt(a).Some? && ParseDouble(b).Some? && ParseDouble(RemoveChars(d, {Euro})).Some?
    ensures var n, w, cost := ParseInt(a).value, ParseDouble(b).value, ParseDouble(RemoveChars(d, {Euro})).value;
      var r := LiveItem(Description(a, b, d), key);
      && (r.Success? <==> n <= MaxItemNo && w <= MaxItemWeight && cost <= MaxItemCost)
      && (r.Success? ==> r.value == Item(key, n, w, cost))
      && (n > MaxItemNo ==> r == Failure(TooManyItems))
      && (n <= MaxItemNo && w > MaxItemWeight ==> r == Failure(ItemTooHeavy(n)))
      && (n <= MaxItemNo && w <= MaxItemWeight && cost > MaxItemCost ==> r == Failure(ItemTooCostly(n)))
  {
    LiveItemOfDescription(a, b, d, key);
  }

  /** A token made of three comma-free fields is read field by field. */
  lemma LiveItemOfDescription(a: string, b: string, d: string, key: nat)
    requires !Mentions(a, {','}) && !Mentions(b, {','}) && !Mentions(d, {','}) && d != ""
    ensures LiveItem(Description(a, b, d), key) == LiveItemOfFields([a, b, d], key)
  {
    SplitDescription(a, b, d);
  }

  /** In the live copy only what is left of the cost field once its euro signs are deleted matters. */
  lemma LiveEurosIgnored(a: string, b: string, d1: string, d2: string, key: nat)
    requires !Mentions(a, {','}) && !Mentions(b, {','}) && !Mentions(d1, {','}) && !Mentions(d2, {','})
    requires d1 != "" && d2 != "" && RemoveChars(d1, {Euro}) == RemoveChars(d2, {Euro})
    ensures LiveItem(Description(a, b, d1), key) == LiveItem(Description(a, b, d2), key)
  {
    LiveItemOfDescription(a, b, d1, key);
    LiveItemOfDescription(a, b, d2, key);
    LiveSameCostText([a, b, d1], [a, b, d2], key);
  }

  /** Fields that agree up to the euro signs of the third read the same. */
  lemma LiveSameCostText(f: seq<string>, g: seq<string>, key: nat)
    requires |f| == |g| == 3 && f[0] == g[0] && f[1] == g[1]
    requires RemoveChars(f[2], {Euro}) == RemoveChars(g[2], {Euro})
    ensures LiveItemOfFields(f, key) == LiveItemOfFields(g, key)
  {
  }

  /**
    The record "8 : (1,15.3,€34)" is read without error and leaves no candidate: its one
    item is valid but weighs 15.3 against a limit of 8.
  */
  lemma LightestTooHeavy(line: string)
    requires line == "8 : (1,15.3,\U{20AC}34)"
    ensures ParseRecord(Live, line) == Success(Request(8.0, {}))
  {
    var token := "(1,15.3,\U{20AC}34)";
    SampleHeader(line, token);
    SampleGather(token);
  }

  /** The one item weighs more than 8, so nothing is gathered and nothing fails. */
  lemma SampleGather(token: string)
    requires token == "(1,15.3,\U{20AC}34)"
    ensures Gather(Outcomes(Live, [token]), 8.0, 1) == Gathered({}, None)
  {
    var item := Item(0, 1, 15.3, 34.0);
    SampleItem(token, item);
    var outcomes := Outcomes(Live, [token]);
    assert outcomes[0] == Success(item);
  }

  /** The header of the record: limit 8 and a single token. */
  lemma SampleHeader(line: string, token: string)
    requires line == "8 : (1,15.3,\U{20AC}34)" && token == "(1,15.3,\U{20AC}34)"
    ensures ReadHeader(line) == Success(Header(8.0, [token]))
  {
    var head, rest := "8 ", " (1,15.3,\U{20AC}34)";
    var parts := SampleParts(line, head, rest);
    SampleLimit(head);
    SampleTokens(rest, token);
  }

  /** The colon splits the record into its limit text and its item text. */
  lemma SampleParts(line: string, head: string, rest: string) returns (parts: seq<string>)
    requires line == "8 : (1,15.3,\U{20AC}34)" && head == "8 " && rest == " (1,15.3,\U{20AC}34)"
    ensures parts == Split(line, ':') == [head, rest]
  {
    assert !Mentions(head, {':'}) by {
      forall i | 0 <= i < |head| ensures head[i] != ':' { }
    }
    assert !Mentions(rest, {':'}) by {
      forall i | 0 <= i < |rest| ensures rest[i] != ':' { }
    }
    assert Join([head, rest], ':') == line;
    SplitOfJoin([head, rest], ':');
    parts := [head, rest];
  }

  /** The limit text reads as 8. */
  lemma SampleLimit(head: string)
    requires head == "8 "
    ensures ParseDouble(Trim(head)) == Some(8.0)
  {
    assert TrimStart(head) == head;
    assert head[..1] == "8";
    ParseDoubleOfDigits("8");
    assert DigitsValue("8") == 8;
  }

  /** The item text is one token. */
  lemma SampleTokens(rest: string, token: string)
    requires rest == " (1,15.3,\U{20AC}34)" && token == "(1,15.3,\U{20AC}34)"
    ensures SplitOnSpaces(Trim(rest)) == [token]
  {
    assert rest[1..] == token;
    assert TrimStart(rest) == token;
    assert !Mentions(token, Spaces) by {
      forall i | 0 <= i < |token| ensures token[i] !in Spaces { }
    }
  }

  /** The single token is the item numbered 1, weighing 15.3 and costing 34. */
  lemma SampleItem(token: string, item: Item)
    requires token == "(1,15.3,\U{20AC}34)" && item == Item(0, 1, 15.3, 34.0)
    ensures ReadToken(Live, token, 0) == Success(item)
  {
    var a, b, d := "1", "15.3", "\U{20AC}34";
    SampleUnparenthesized(token, a, b, d);
    SampleNumbers(a, b, d);
    LiveTokenRead(token, a, b, d, 0, 1, 15.3, 34.0);
  }

  /** A token whose parentheses hide three well-formed fields within the bounds reads as their item. */
  lemma LiveTokenRead(token: string, a: string, b: string, d: string, key: nat, n: Int32, w: real, c: real)
    requires Unparenthesized(token) == Description(a, b, d)
    requires !Mentions(a, {','}) && !Mentions(b, {','}) && !Mentions(d, {','}) && d != ""
    requires ParseInt(a) == Some(n) && ParseDouble(b) == Some(w) && ParseDouble(RemoveChars(d, {Euro})) == Some(c)
    requires n <= MaxItemNo && w <= MaxItemWeight && c <= MaxItemCost
    ensures ReadToken(Live, token, key) == Success(Item(key, n, w, c))
  {
    LiveItemOfWellFormed(a, b, d, key);
  }

  /** Deleting the parentheses leaves the three fields and their commas. */
  lemma SampleUnparenthesized(token: string, a: string, b: string, d: string)
    requires token == "(1,15.3,\U{20AC}34)" && a == "1" && b == "15.3" && d == "\U{20AC}34"
    ensures Unparenthesized(token) == Description(a, b, d)
    ensures !Mentions(a, {','}) && !Mentions(b, {','}) && !Mentions(d, {','}) && d != ""
  {
    SampleTokenTrimmed(token);
    SampleStrip(token, Description(a, b, d));
    SampleFieldsPlain(a, b, d);
  }

  lemma SampleTokenTrimmed(token: string)
    requires token == "(1,15.3,\U{20AC}34)"
    ensures Trim(token) == token
  {
  }

  /** The token is its fields between two parentheses, and the fields hold none. */
  lemma SampleStrip(token: string, inner: string)
    requires token == "(1,15.3,\U{20AC}34)" && inner == "1,15.3,\U{20AC}34"
    ensures RemoveChars(token, Parentheses) == inner
  {
    assert token == "(" + inner + ")";
    SampleInnerPlain(inner);
    EnclosedUnparenthesized(inner);
  }

  /** Deleting parentheses from a parenthesized text that holds none inside leaves the inside. */
  lemma EnclosedUnparenthesized(inner: string)
    requires !Mentions(inner, Parentheses)
    ensures RemoveChars("(" + inner + ")", Parentheses) == inner
  {
    var s := "(" + inner + ")";
    assert s[0] == '(' && s[1..] == inner + [')'];
    RemoveCharsDropsLast(inner, ')', Parentheses);
  }

  lemma SampleInnerPlain(inner: string)
    requires inner == "1,15.3,\U{20AC}34"
    ensures !Mentions(inner, Parentheses)
  {
    forall i | 0 <= i < |inner| ensures inner[i] !in Parentheses { }
  }

  /** None of the three fields holds a comma. */
  lemma SampleFieldsPlain(a: string, b: string, d: string)
    requires a == "1" && b == "15.3" && d == "\U{20AC}34"
    ensures !Mentions(a, {','}) && !Mentions(b, {','}) && !Mentions(d, {','}) && d != ""
  {
    assert |b| == 4 && b[0] == '1' && b[1] == '5' && b[2] == '.' && b[3] == '3';
    assert |d| == 3 && d[0] == Euro && d[1] == '3' && d[2] == '4';
  }

  /** The fields read as 1, 15.3 and, once the euro sign is gone, 34. */
  lemma SampleNumbers(a: string, b: string, d: string)
    requires a == "1" && b == "15.3" && d == "\U{20AC}34"
    ensures ParseInt(a) == Some(1) && ParseDouble(b) == Some(15.3)
    ensures ParseDouble(RemoveChars(d, {Euro})) == Some(34.0)
  {
    SampleNo(a);
    SampleWeight(b);
    SampleCost(d);
  }

  lemma SampleNo(a: string)
    requires a == "1"
    ensures ParseInt(a) == Some(1)
  {
    assert a[..0] == "" && DigitsValue(a) == 1;
  }

  lemma SampleWeight(b: string)
    requires b == "15.3"
    ensures ParseDouble(b) == Some(15.3)
  {
    var whole, fraction := "15", "3";
    assert whole + "." + fraction == b;
    ParseDoubleOfDecimal(whole, fraction);
    SampleWeightValue(whole, fraction);
  }

  lemma SampleWeightValue(whole: string, fraction: string)
    requires whole == "15" && fraction == "3"
    ensures DecimalValue(whole, fraction) == 15.3
  {
    assert whole[..1][..0] == "" && DigitsValue(whole[..1]) == 1;
    assert DigitsValue(whole) == 15;
    assert fraction[..0] == "" && DigitsValue(fraction) == 3;
    assert Pow10(1) == 10;
  }

  lemma SampleCost(d: string)
    requires d == "\U{20AC}34"
    ensures ParseDouble(RemoveChars(d, {Euro})) == Some(34.0)
  {
    var c := SampleCostText(d);
    ParseDoubleOfDigits(c);
    SampleCostValue(c);
  }

  /** Deleting the euro sign leaves "34". */
  lemma SampleCostText(d: string) returns (c: string)
    requires d == "\U{20AC}34"
    ensures c == RemoveChars(d, {Euro}) == "34" && AllDigits(c) && |c| > 0
  {
    c := "34";
    assert d[0] == Euro && d[1..] == c;
    assert !Mentions(c, {Euro}) by {
      assert |c| == 2 && c[0] == '3' && c[1] == '4';
    }
  }

  lemma SampleCostValue(c: string)
    requires c == "34"
    ensures DigitsValue(c) as real == 34.0
  {
    assert c[..1][..0] == "" && DigitsValue(c[..1]) == 3;
    assert DigitsValue(c) == 34;
  }

  /** In the refactored copies, a token that is trimmed and has at least two characters loses exactly its first and last one. */
  lemma RefactoredTokenLosesEnds(token: string, key: nat)
    requires |token| >= 2 && Trim(token) == token
    ensures ReadToken(Refactored, token, key) == CreateItem(token[1..|token| - 1], key)
  {
  }
}
