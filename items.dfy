/**
  Items and their validation: the `Item` record, the errors the pipeline raises, and
  `ItemOperations.createItem`, which reads one item description "no,weight,Xcost".
*/
module Items {
  import opened Results
  import opened JavaText

  /**
    An `Item` object. The Java class defines no `equals`, so two items are the same only when
    they are the same object; `key` stands for that identity (the position of the token the
    object was built from). `no` is the item number as written in the record.
  */
  datatype Item = Item(key: nat, no: Int32, weight: real, cost: real)

  /** What the pipeline throws. */
  datatype Error =
    | IndexOutOfBounds        // ArrayIndexOutOfBoundsException or StringIndexOutOfBoundsException
    | NumberFormat            // NumberFormatException from Integer.parseInt or Double.parseDouble
    | LimitTooHeavy           // ConstraintException: the package weight limit is above 100
    | TooManyItems            // ConstraintException: the item number is above 15
    | ItemTooHeavy(no: Int32)  // ConstraintException: the item weighs more than 100
    | ItemTooCostly(no: Int32) // ConstraintException: the item costs more than 100

  const MaxPackageWeight: real := 100.0
  const MaxItemNo: int := 15
  const MaxItemWeight: real := 100.0
  const MaxItemCost: real := 100.0

  /** The three constraint checks, in the order the code makes them. */
  function Validate(no: Int32, weight: real, cost: real, key: nat): (r: Result<Item, Error>)
    ensures r.Success? <==> no <= MaxItemNo && weight <= MaxItemWeight && cost <= MaxItemCost
    ensures r.Success? ==> r.value == Item(key, no, weight, cost)
  {
    if no > MaxItemNo then Failure(TooManyItems)
    else if weight > MaxItemWeight then Failure(ItemTooHeavy(no))
    else if cost > MaxItemCost then Failure(ItemTooCostly(no))
    else Success(Item(key, no, weight, cost))
  }

  /**
    `ItemOperations.createItem`: split the description at commas; the number is the trimmed
    first field, the weight the trimmed second; the third field is trimmed and then cut with
    `substring(1, length)` where `length` is the length of the UNtrimmed field, which drops
    the first character (the currency mark, whatever it is). `key` is the new object's identity.
  */
  function CreateItem(description: string, key: nat): (r: Result<Item, Error>)
    ensures r.Success? ==> r.value.key == key && r.value.no <= MaxItemNo && r.value.weight <= MaxItemWeight && r.value.cost <= MaxItemCost
  {
    ItemOfFields(Split(description, ','), key)
  }

  /** The part of `createItem` after the split, on the array of fields. */
  function ItemOfFields(fields: seq<string>, key: nat): (r: Result<Item, Error>)
    ensures r.Success? ==> |fields| >= 3 && r.value.key == key && r.value.no <= MaxItemNo && r.value.weight <= MaxItemWeight && r.value.cost <= MaxItemCost
  {
    if |fields| < 1 then Failure(IndexOutOfBounds)
    else match ParseInt(Trim(fields[0]))
      case None => Failure(NumberFormat)
      case Some(no) =>
        if |fields| < 2 then Failure(IndexOutOfBounds)
        else match ParseDouble(Trim(fields[1]))
          case None => Failure(NumberFormat)
          case Some(weight) =>
            if |fields| < 3 then Failure(IndexOutOfBounds)
            else match ReadCost(fields[2])
              case Failure(e) => Failure(e)
              case Success(cost) => Validate(no, weight, cost, key)
  }

  /**
    `Double.parseDouble(field.trim().substring(1, field.length()))`: the end index is the
    length before trimming, so a field with whitespace around it overruns the trimmed text.
    A cost is read only from a field without such whitespace, and it is what follows the
    first character.
  */
  function ReadCost(field: string): (r: Result<real, Error>)
    ensures r.Success? ==> |field| >= 1 && Trim(field) == field && ParseDouble(field[1..]) == Some(r.value)
    ensures |Trim(field)| < |field| ==> r == Failure(IndexOutOfBounds)
  {
    var trimmed := Trim(field);
    if |field| < 1 || |field| > |trimmed| then Failure(IndexOutOfBounds)
    else
      assert trimmed[1..|field|] == field[1..];
      match ParseDouble(trimmed[1..|field|])
      case None => Failure(NumberFormat)
      case Some(cost) => Success(cost)
  }

  /** The description built from three comma-free fields. */
  function Description(a: string, b: string, d: string): string
  {
    a + [','] + b + [','] + d
  }

  // ---------------------------------------------------------------------------
  // Lemmas

  /** Three comma-free fields, the last one non-empty, split back into themselves. */
  lemma SplitDescription(a: string, b: string, d: string)
    requires !Mentions(a, {','}) && !Mentions(b, {','}) && !Mentions(d, {','})
    requires d != ""
    ensures Split(Description(a, b, d), ',') == [a, b, d]
  {
    assert Join([a, b, d], ',') == Description(a, b, d) by {
      assert Join([a, b, d][1..], ',') == b + [','] + d;
    }
    SplitOfJoin([a, b, d], ',');
  }

  /** A description made of three comma-free fields is read field by field. */
  lemma CreateItemOfDescription(a: string, b: string, d: string, key: nat)
    requires !Mentions(a, {','}) && !Mentions(b, {','}) && !Mentions(d, {','}) && d != ""
    ensures CreateItem(Description(a, b, d), key) == ItemOfFields([a, b, d], key)
  {
    SplitDescription(a, b, d);
  }

  /** A mark followed by the cost text: the mark is dropped whatever it is, unless spaces surround the field. */
  lemma ReadCostOfMarked(mark: char, c: string)
    requires !IsTrimmable(mark)
    ensures c != [] && !IsTrimmable(c[|c| - 1]) ==> ReadCost([mark] + c) == if ParseDouble(c).Some? then Success(ParseDouble(c).value) else Failure(NumberFormat)
    ensures c != [] && IsTrimmable(c[|c| - 1]) ==> ReadCost([mark] + c) == Failure(IndexOutOfBounds)
  {
    var d := [mark] + c;
    if c != [] && !IsTrimmable(c[|c| - 1]) {
      assert Trim(d) == d;
      assert d[1..|d|] == c;
    }
  }

  /** Prefixing a character to a comma-free string keeps it comma-free. */
  lemma MarkedHasNoComma(mark: char, c: string)
    requires mark != ',' && !Mentions(c, {','})
    ensures !Mentions([mark] + c, {','})
  {
    var d := [mark] + c;
    forall i | 0 <= i < |d| ensures d[i] != ',' {
      if i > 0 { assert d[i] == c[i - 1]; }
    }
  }

  /**
    A well-formed description "n,w,Xc": the item is built exactly when n <= 15, w <= 100 and
    c <= 100, with those values; otherwise the first bound broken, in the order number,
    weight, cost, is the one reported. There are no lower bounds.
  */
  lemma CreateItemOfWellFormed(a: string, b: string, mark: char, c: string, key: nat)
    requires !Mentions(a, {','}) && !Mentions(b, {','}) && !Mentions(c, {','}) && mark != ','
    requires ParseInt(Trim(a)).Some? && ParseDouble(Trim(b)).Some? && ParseDouble(c).Some?
    requires !IsTrimmable(mark) && c != [] && !IsTrimmable(c[|c| - 1])
    ensures var n, w, cost := ParseInt(Trim(a)).value, ParseDouble(Trim(b)).value, ParseDouble(c).value;
      var r := CreateItem(Description(a, b, [mark] + c), key);
      && (r.Success? <==> n <= MaxItemNo && w <= MaxItemWeight && cost <= MaxItemCost)
      && (r.Success? ==> r.value == Item(key, n, w, cost))
      && (n > MaxItemNo ==> r == Failure(TooManyItems))
      && (n <= MaxItemNo && w > MaxItemWeight ==> r == Failure(ItemTooHeavy(n)))
      && (n <= MaxItemNo && w <= MaxItemWeight && cost > MaxItemCost ==> r == Failure(ItemTooCostly(n)))
  {
    WellFormedIsValidated(a, b, mark, c, key);
  }

  /** A well-formed description reaches the constraint checks with the values it spells. */
  lemma WellFormedIsValidated(a: string, b: string, mark: char, c: string, key: nat)
    requires !Mentions(a, {','}) && !Mentions(b, {','}) && !Mentions(c, {','}) && mark != ','
    requires ParseInt(Trim(a)).Some? && ParseDouble(Trim(b)).Some? && ParseDouble(c).Some?
    requires !IsTrimmable(mark) && c != [] && !IsTrimmable(c[|c| - 1])
    ensures CreateItem(Description(a, b, [mark] + c), key) ==
      Validate(ParseInt(Trim(a)).value, ParseDouble(Trim(b)).value, ParseDouble(c).value, key)
  {
    MarkedHasNoComma(mark, c);
    CreateItemOfDescription(a, b, [mark] + c, key);
    ReadCostOfMarked(mark, c);
    assert ReadCost([mark] + c) == Success(ParseDouble(c).value);
  }

  /** The currency mark is never looked at: any other printable mark gives the same result. */
  lemma CurrencyMarkIgnored(a: string, b: string, m1: char, m2: char, c: string, key: nat)
    requires !Mentions(a, {','}) && !Mentions(b, {','}) && !Mentions(c, {','})
    requires m1 != ',' && m2 != ',' && !IsTrimmable(m1) && !IsTrimmable(m2)
    ensures CreateItem(Description(a, b, [m1] + c), key) == CreateItem(Description(a, b, [m2] + c), key)
  {
    MarkedHasNoComma(m1, c);
    MarkedHasNoComma(m2, c);
    CreateItemOfDescription(a, b, [m1] + c, key);
    CreateItemOfDescription(a, b, [m2] + c, key);
    ReadCostIgnoresMark(m1, m2, c);
    SameCostSameItem(a, b, [m1] + c, [m2] + c, key);
  }

  lemma ReadCostIgnoresMark(m1: char, m2: char, c: string)
    requires !IsTrimmable(m1) && !IsTrimmable(m2)
    ensures ReadCost([m1] + c) == ReadCost([m2] + c)
  {
    ReadCostOfMarked(m1, c);
    ReadCostOfMarked(m2, c);
    if c == [] {
      assert Trim([m1]) == [m1] && Trim([m2]) == [m2];
    }
  }

  lemma SameCostSameItem(a: string, b: string, d1: string, d2: string, key: nat)
    requires ReadCost(d1) == ReadCost(d2)
    ensures ItemOfFields([a, b, d1], key) == ItemOfFields([a, b, d2], key)
  {
  }

  /**
    A cost field with whitespace around it fails: `substring` is given the untrimmed length,
    which overruns the trimmed string.
  */
  lemma PaddedCostFails(a: string, b: string, d: string, key: nat)
    requires !Mentions(a, {','}) && !Mentions(b, {','}) && !Mentions(d, {','}) && d != ""
    requires ParseInt(Trim(a)).Some? && ParseDouble(Trim(b)).Some?
    requires IsTrimmable(d[0]) || IsTrimmable(d[|d| - 1])
    ensures CreateItem(Description(a, b, d), key) == Failure(IndexOutOfBounds)
  {
    CreateItemOfDescription(a, b, d, key);
    assert ReadCost(d) == Failure(IndexOutOfBounds);
  }

  /** A description with fewer than three comma-separated fields is refused. */
  lemma FewerThanThreeFieldsFails(description: string, key: nat)
    requires |Split(description, ',')| < 3
    ensures CreateItem(description, key).Failure?
  {
  }

  /** Whatever follows a non-empty third field is ignored. */
  lemma ExtraFieldsIgnored(a: string, b: string, d: string, rest: string, key: nat)
    requires !Mentions(a, {','}) && !Mentions(b, {','}) && !Mentions(d, {','}) && d != ""
    ensures CreateItem(Description(a, b, d) + [','] + rest, key) == CreateItem(Description(a, b, d), key)
  {
    CreateItemOfDescription(a, b, d, key);
    var fields := SplitWithRest(a, b, d, rest);
    assert CreateItem(Description(a, b, d) + [','] + rest, key) == ItemOfFields(fields, key);
    ItemOfFieldsReadsThree(fields, [a, b, d], key);
  }

  /** Only the first three fields are read. */
  lemma ItemOfFieldsReadsThree(f: seq<string>, g: seq<string>, key: nat)
    requires |f| >= 3 && |g| >= 3 && f[0] == g[0] && f[1] == g[1] && f[2] == g[2]
    ensures ItemOfFields(f, key) == ItemOfFields(g, key)
  {
  }

  /** The first three fields of a description followed by more text. */
  lemma SplitWithRest(a: string, b: string, d: string, rest: string) returns (fields: seq<string>)
    requires !Mentions(a, {','}) && !Mentions(b, {','}) && !Mentions(d, {','}) && d != ""
    ensures fields == Split(Description(a, b, d) + [','] + rest, ',')
    ensures |fields| >= 3 && fields[0] == a && fields[1] == b && fields[2] == d
  {
    var s := Description(a, b, d) + [','] + rest;
    var tail2 := d + [','] + rest;
    var tail1 := b + [','] + tail2;
    assert s == a + [','] + tail1;
    FieldsAfterSeparator(a, ',', tail1, {','});
    FieldsAfterSeparator(b, ',', tail2, {','});
    FieldsAfterSeparator(d, ',', rest, {','});
    var more := Fields(rest, {','});
    assert Fields(s, {','}) == [a, b, d] + more by {
      assert Fields(tail2, {','}) == [d] + more;
      assert Fields(tail1, {','}) == [b] + ([d] + more);
      assert [a] + ([b] + ([d] + more)) == [a, b, d] + more;
    }
    DropTrailingEmptyAfter([a, b, d], more);
    assert Mentions(s, {','}) by {
      assert s[|a|] == ',';
    }
    fields := Split(s, ',');
    assert fields == [a, b, d] + DropTrailingEmpty(more);
  }
}
