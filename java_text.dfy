/**
  The parts of java.lang.String, Integer and Double that the packaging code relies on:
  trim, split with a one-character pattern and with "\\s+", replaceAll with a character
  class, substring bounds, Integer.parseInt, Double.parseDouble (plain decimal notation,
  read exactly), String.valueOf(int) and Collectors.joining.
*/
module JavaText {
  import opened Results

  /** The range of Java's `int`. */
  type Int32 = n: int | -0x8000_0000 <= n < 0x8000_0000

  /** A character that `String.trim` strips from either end: every code unit up to U+0020. */
  predicate IsTrimmable(c: char) { c <= ' ' }

  /** The characters of the regular-expression class `\s`. */
  const Spaces: set<char> := {' ', '\t', '\n', '\U{B}', '\U{C}', '\r'}

  /** True when some character of `s` belongs to `cs`. */
  predicate Mentions(s: string, cs: set<char>) {
    exists i :: 0 <= i < |s| && s[i] in cs
  }

  function TrimStart(s: string): (r: string)
    ensures |r| <= |s| && (|r| == |s| ==> r == s)
    ensures r == [] || !IsTrimmable(r[0])
  {
    if |s| > 0 && IsTrimmable(s[0]) then TrimStart(s[1..]) else s
  }

  function TrimEnd(s: string): (r: string)
    ensures |r| <= |s| && (|r| == |s| ==> r == s)
    ensures r == [] || (!IsTrimmable(r[|r| - 1]) && r[0] == s[0])
  {
    if |s| > 0 && IsTrimmable(s[|s| - 1]) then TrimEnd(s[..|s| - 1]) else s
  }

  /** `String.trim`: `s` without its leading and trailing characters up to U+0020. */
  function Trim(s: string): (r: string)
    ensures |r| <= |s|
    ensures |r| == |s| ==> r == s
    ensures r == s <==> s == [] || (!IsTrimmable(s[0]) && !IsTrimmable(s[|s| - 1]))
    ensures r == [] || (!IsTrimmable(r[0]) && !IsTrimmable(r[|r| - 1]))
  {
    TrimEnd(TrimStart(s))
  }

  /** The pieces of `s` between separator characters, every empty piece included. */
  function Fields(s: string, seps: set<char>): (r: seq<string>)
    ensures |r| >= 1
    ensures forall i, j :: 0 <= i < |r| && 0 <= j < |r[i]| ==> r[i][j] !in seps
  {
    if |s| == 0 then [""]
    else
      var rest := Fields(s[1..], seps);
      if s[0] in seps then [""] + rest else [[s[0]] + rest[0]] + rest[1..]
  }

  /** What `split` does to its pieces at the end: the trailing empty strings are dropped. */
  function DropTrailingEmpty(pieces: seq<string>): (r: seq<string>)
    ensures |r| <= |pieces| && r == pieces[..|r|]
    ensures r == [] || r[|r| - 1] != ""
    ensures forall i :: |r| <= i < |pieces| ==> pieces[i] == ""
  {
    if |pieces| > 0 && pieces[|pieces| - 1] == "" then DropTrailingEmpty(pieces[..|pieces| - 1]) else pieces
  }

  /** The non-empty pieces, in order. */
  function NonEmpty(pieces: seq<string>): (r: seq<string>)
    ensures |r| <= |pieces|
    ensures forall i :: 0 <= i < |r| ==> r[i] != "" && r[i] in pieces
  {
    if |pieces| == 0 then []
    else if pieces[0] == "" then NonEmpty(pieces[1..])
    else [pieces[0]] + NonEmpty(pieces[1..])
  }

  /**
    `s.split(p)` where `p` matches the single character `sep`: `s` itself when `sep` does
    not occur, otherwise the pieces between occurrences without the trailing empty ones.
  */
  function Split(s: string, sep: char): (r: seq<string>)
    ensures forall i, j :: 0 <= i < |r| && 0 <= j < |r[i]| ==> r[i][j] != sep
  {
    if !Mentions(s, {sep}) then [s] else DropTrailingEmpty(Fields(s, {sep}))
  }

  /**
    `s.split("\\s+")`: `s` itself when it holds no space character, otherwise the text between
    runs of spaces (an empty first piece when `s` starts with a space), trailing empty
    pieces dropped.
  */
  function SplitOnSpaces(s: string): (r: seq<string>)
    ensures Mentions(s, Spaces) ==> forall i, j :: 0 <= i < |r| && 0 <= j < |r[i]| ==> r[i][j] !in Spaces
  {
    if !Mentions(s, Spaces) then [s]
    else
      var f := Fields(s, Spaces);
      DropTrailingEmpty([f[0]] + NonEmpty(f[1..]))
  }

  /** `s.replaceAll("[...]", "")` for a character class `cs`: `s` with every character of `cs` deleted. */
  function RemoveChars(s: string, cs: set<char>): (r: string)
    ensures |r| <= |s|
    ensures forall i :: 0 <= i < |r| ==> r[i] !in cs
    ensures forall c :: c !in cs ==> multiset(r)[c] == multiset(s)[c]
    ensures !Mentions(s, cs) ==> r == s
  {
    if |s| == 0 then ""
    else
      assert s == [s[0]] + s[1..];
      if s[0] in cs then RemoveChars(s[1..], cs) else [s[0]] + RemoveChars(s[1..], cs)
  }

  /** The position of the first `c` in `s`, or `|s|` when there is none. */
  function IndexOf(s: string, c: char): (i: nat)
    ensures i <= |s|
    ensures i < |s| ==> s[i] == c
    ensures forall j :: 0 <= j < i ==> s[j] != c
  {
    if |s| == 0 || s[0] == c then 0 else 1 + IndexOf(s[1..], c)
  }

  predicate IsDigit(c: char) { '0' <= c <= '9' }

  predicate AllDigits(s: string) { forall i :: 0 <= i < |s| ==> IsDigit(s[i]) }

  function Pow10(k: nat): (p: nat)
    ensures p >= 1
  {
    if k == 0 then 1 else 10 * Pow10(k - 1)
  }

  /** The number a string of decimal digits denotes. */
  function DigitsValue(s: string): nat
    requires AllDigits(s)
  {
    if |s| == 0 then 0 else DigitsValue(s[..|s| - 1]) * 10 + (s[|s| - 1] as int - '0' as int)
  }

  /**
    `Integer.parseInt`: an optional sign and at least one decimal digit, denoting a value in
    the range of `int`; `None` where Java throws NumberFormatException.
  */
  function ParseInt(s: string): Option<Int32>
  {
    var negative := |s| > 0 && s[0] == '-';
    var digits := if |s| > 0 && (s[0] == '-' || s[0] == '+') then s[1..] else s;
    if |digits| == 0 || !AllDigits(digits) then None
    else
      var n: int := if negative then -(DigitsValue(digits) as int) else DigitsValue(digits);
      if -0x8000_0000 <= n < 0x8000_0000 then Some(n) else None
  }

  /**
    `Double.parseDouble` on plain decimal notation: surrounding whitespace ignored, an
    optional sign, digits with at most one decimal point and at least one digit. The value is
    the exact rational the text denotes; `None` where Java throws NumberFormatException.
  */
  function ParseDouble(s: string): Option<real>
  {
    var t := Trim(s);
    var negative := |t| > 0 && t[0] == '-';
    var body := if |t| > 0 && (t[0] == '-' || t[0] == '+') then t[1..] else t;
    var point := IndexOf(body, '.');
    var whole := body[..point];
    var fraction := if point < |body| then body[point + 1..] else "";
    if |whole| + |fraction| == 0 || !AllDigits(whole) || !AllDigits(fraction) then None
    else
      var magnitude := DecimalValue(whole, fraction);
      Some(if negative then -magnitude else magnitude)
  }

  /** The exact value of the decimal numeral `whole.fraction`. */
  function DecimalValue(whole: string, fraction: string): real
    requires AllDigits(whole) && AllDigits(fraction)
  {
    DigitsValue(whole) as real + DigitsValue(fraction) as real / Pow10(|fraction|) as real
  }

  function DigitChar(d: nat): (c: char)
    requires d < 10
    ensures IsDigit(c) && c as int - '0' as int == d
  {
    ('0' as int + d) as char
  }

  /** The decimal digits of `n`, without leading zeros. */
  function NatToString(n: nat): (s: string)
    ensures |s| >= 1 && AllDigits(s)
  {
    if n < 10 then [DigitChar(n)] else NatToString(n / 10) + [DigitChar(n % 10)]
  }

  /** `String.valueOf(int)`: a minus sign for negative values, then the decimal digits. */
  function IntToString(n: int): (s: string)
    ensures |s| >= 1
    ensures forall i :: 0 <= i < |s| ==> IsDigit(s[i]) || (i == 0 && s[i] == '-')
  {
    if n < 0 then "-" + NatToString(-n) else NatToString(n)
  }

  /** `Collectors.joining` with a one-character delimiter. */
  function Join(parts: seq<string>, sep: char): string
  {
    if |parts| == 0 then ""
    else if |parts| == 1 then parts[0]
    else parts[0] + [sep] + Join(parts[1..], sep)
  }

  // ---------------------------------------------------------------------------
  // Lemmas

  /** Reading back the digits of a natural number gives the number. */
  lemma {:induction false} DigitsValueOfNat(n: nat)
    ensures DigitsValue(NatToString(n)) == n
  {
    if n >= 10 {
      var s := NatToString(n);
      assert s[..|s| - 1] == NatToString(n / 10);
      DigitsValueOfNat(n / 10);
    }
  }

  /** `Integer.parseInt(String.valueOf(n)) == n` for every `int`. */
  lemma ParseIntOfIntToString(n: Int32)
    ensures ParseInt(IntToString(n)) == Some(n)
  {
    var s := IntToString(n);
    if n < 0 {
      var m: nat := -(n as int);
      assert s[0] == '-' && s[1..] == NatToString(m);
      DigitsValueOfNat(m);
    } else {
      assert s == NatToString(n) && IsDigit(s[0]);
      DigitsValueOfNat(n);
    }
  }

  /** Decimal digits with a point among them read back as the exact value they denote. */
  lemma ParseDoubleOfDecimal(whole: string, fraction: string)
    requires AllDigits(whole) && AllDigits(fraction) && |whole| + |fraction| > 0
    ensures ParseDouble(whole + "." + fraction) == Some(DecimalValue(whole, fraction))
  {
    var s := whole + "." + fraction;
    NumeralUntrimmed(s);
    IndexOfFirst(whole, '.', fraction);
    assert |whole| < |s|;
    assert s[..|whole|] == whole;
    assert s[|whole| + 1..] == fraction;
  }

  /** Decimal digits without a point read back as the whole number they denote. */
  lemma ParseDoubleOfDigits(whole: string)
    requires AllDigits(whole) && |whole| > 0
    ensures ParseDouble(whole) == Some(DigitsValue(whole) as real)
  {
    WholeNumeral(whole);
    NoFraction(whole);
  }

  /** Digits without a point are all whole part. */
  lemma WholeNumeral(whole: string)
    requires AllDigits(whole) && |whole| > 0
    ensures ParseDouble(whole) == Some(DecimalValue(whole, ""))
  {
    NumeralUntrimmed(whole);
    IndexOfFirst(whole, '.', []);
    assert whole[..|whole|] == whole;
  }

  /** An empty fraction adds nothing. */
  lemma NoFraction(whole: string)
    requires AllDigits(whole)
    ensures DecimalValue(whole, "") == DigitsValue(whole) as real
  {
    assert DigitsValue("") == 0 && Pow10(0) == 1;
    assert 0 as real / 1 as real == 0.0;
  }

  /** Text that starts and ends with a digit or a point is left alone by `trim` and carries no sign. */
  lemma NumeralUntrimmed(s: string)
    requires |s| > 0 && (IsDigit(s[0]) || s[0] == '.') && (IsDigit(s[|s| - 1]) || s[|s| - 1] == '.')
    ensures Trim(s) == s && s[0] != '-' && s[0] != '+'
  {
  }

  /** The first `c` of `a + [c] + b` is at position `|a|` when `a` has none. */
  lemma IndexOfFirst(a: string, c: char, b: string)
    requires AllDigits(a) && !IsDigit(c)
    ensures IndexOf(a + [c] + b, c) == |a|
    ensures b == [] ==> IndexOf(a, c) == |a|
  {
    var s := a + [c] + b;
    assert s[|a|] == c;
    forall j | 0 <= j < |a|
      ensures s[j] != c && a[j] != c
    {
      assert s[j] == a[j] && IsDigit(a[j]);
    }
  }

  /** Deleting a character of `cs` after a text free of them leaves the text. */
  lemma {:induction false} RemoveCharsDropsLast(x: string, c: char, cs: set<char>)
    requires c in cs && !Mentions(x, cs)
    ensures RemoveChars(x + [c], cs) == x
    decreases |x|
  {
    var s := x + [c];
    if x == [] {
      assert s == [c] && s[1..] == [];
    } else {
      assert s[0] == x[0] && s[1..] == x[1..] + [c];
      assert !Mentions(x[1..], cs) by {
        forall i | 0 <= i < |x[1..]| ensures x[1..][i] !in cs { assert x[1..][i] == x[i + 1]; }
      }
      RemoveCharsDropsLast(x[1..], c, cs);
      assert [x[0]] + x[1..] == x;
    }
  }

  /** Deleting from a non-empty string: its first character goes or stays, then the rest. */
  lemma RemoveCharsStep(s: string, cs: set<char>)
    requires s != []
    ensures RemoveChars(s, cs) == (if s[0] in cs then "" else [s[0]]) + RemoveChars(s[1..], cs)
  {
  }

  /** A single character is deleted exactly when it is in `cs`. */
  lemma RemoveCharsOne(c: char, cs: set<char>)
    ensures RemoveChars([c], cs) == if c in cs then "" else [c]
  {
    RemoveCharsStep([c], cs);
    assert [c][1..] == "";
  }

  /** One step of `RemoveCharsAppend`: the claim for `x` follows from the claim for `x[1..]`. */
  lemma RemoveCharsAppendStep(x: string, y: string, cs: set<char>)
    requires x != []
    requires RemoveChars(x[1..] + y, cs) == RemoveChars(x[1..], cs) + RemoveChars(y, cs)
    ensures RemoveChars(x + y, cs) == RemoveChars(x, cs) + RemoveChars(y, cs)
  {
    var t := x[1..];
    var head: string := if x[0] in cs then "" else [x[0]];
    assert RemoveChars(x, cs) == head + RemoveChars(t, cs) by {
      RemoveCharsStep(x, cs);
    }
    assert RemoveChars(x + y, cs) == head + RemoveChars(t + y, cs) by {
      TailOfConcat(x, y);
      RemoveCharsStep(x + y, cs);
    }
    Regroup(head, RemoveChars(t, cs), RemoveChars(y, cs), RemoveChars(t + y, cs), RemoveChars(x, cs), RemoveChars(x + y, cs));
  }

  /** Concatenation regrouped: `h + (a + b)` is `(h + a) + b`. */
  lemma Regroup(h: string, a: string, b: string, ab: string, xs: string, xys: string)
    requires ab == a + b && xs == h + a && xys == h + ab
    ensures xys == xs + b
  {
  }

  lemma TailOfConcat(x: string, y: string)
    requires x != []
    ensures (x + y)[0] == x[0] && (x + y)[1..] == x[1..] + y
  {
  }

  /**
    Deleting characters works piece by piece: the result for `x + y` is the result for `x`
    followed by the result for `y`, so the characters kept stay in their order.
  */
  lemma {:induction false} RemoveCharsAppend(x: string, y: string, cs: set<char>)
    ensures RemoveChars(x + y, cs) == RemoveChars(x, cs) + RemoveChars(y, cs)
    decreases |x|
  {
    if x == [] {
      assert x + y == y;
    } else {
      RemoveCharsAppend(x[1..], y, cs);
      RemoveCharsAppendStep(x, y, cs);
    }
  }

  /** A piece free of separators splits into itself. */
  lemma {:induction false} FieldsWithoutSeparator(s: string, seps: set<char>)
    requires !Mentions(s, seps)
    ensures Fields(s, seps) == [s]
  {
    if |s| > 0 {
      assert !Mentions(s[1..], seps) by {
        forall i | 0 <= i < |s[1..]| ensures s[1..][i] !in seps { assert s[1..][i] == s[i + 1]; }
      }
      FieldsWithoutSeparator(s[1..], seps);
      assert s[0] !in seps;
      assert [s[0]] + s[1..] == s;
    }
  }

  /** A separator-free prefix followed by a separator is the first piece. */
  lemma {:induction false} FieldsAfterSeparator(a: string, sep: char, b: string, seps: set<char>)
    requires sep in seps && !Mentions(a, seps)
    ensures Fields(a + [sep] + b, seps) == [a] + Fields(b, seps)
  {
    var s := a + [sep] + b;
    if |a| == 0 {
      assert s[1..] == b;
    } else {
      assert s[1..] == a[1..] + [sep] + b;
      assert !Mentions(a[1..], seps) by {
        forall i | 0 <= i < |a[1..]| ensures a[1..][i] !in seps { assert a[1..][i] == a[i + 1]; }
      }
      FieldsAfterSeparator(a[1..], sep, b, seps);
      assert [a[0]] + a[1..] == a;
    }
  }

  /** Splitting the joined pieces at any separator set holding the joining one gives the pieces back. */
  lemma {:induction false} FieldsOfJoin(parts: seq<string>, sep: char, seps: set<char>)
    requires |parts| >= 1 && sep in seps
    requires forall i :: 0 <= i < |parts| ==> !Mentions(parts[i], seps)
    ensures Fields(Join(parts, sep), seps) == parts
  {
    if |parts| == 1 {
      FieldsWithoutSeparator(parts[0], seps);
    } else {
      FieldsOfJoin(parts[1..], sep, seps);
      FieldsAfterSeparator(parts[0], sep, Join(parts[1..], sep), seps);
      assert [parts[0]] + parts[1..] == parts;
    }
  }

  /** Pieces that are all non-empty are kept as they are. */
  lemma {:induction false} NonEmptyAll(pieces: seq<string>)
    requires forall i :: 0 <= i < |pieces| ==> pieces[i] != ""
    ensures NonEmpty(pieces) == pieces
  {
    if |pieces| > 0 {
      NonEmptyAll(pieces[1..]);
      assert [pieces[0]] + pieces[1..] == pieces;
    }
  }

  /** Dropping trailing empty pieces leaves a prefix that ends in a non-empty piece alone. */
  lemma {:induction false} DropTrailingEmptyAfter(p: seq<string>, q: seq<string>)
    requires |p| >= 1 && p[|p| - 1] != ""
    ensures DropTrailingEmpty(p + q) == p + DropTrailingEmpty(q)
  {
    if |q| > 0 && q[|q| - 1] == "" {
      assert (p + q)[..|p + q| - 1] == p + q[..|q| - 1];
      DropTrailingEmptyAfter(p, q[..|q| - 1]);
    } else if |q| == 0 {
      assert p + q == p;
    }
  }

  /** The text before the first separator is the first piece, when it is not empty. */
  lemma SplitFirstPiece(head: string, sep: char, rest: string)
    requires head != [] && !Mentions(head, {sep})
    ensures var parts := Split(head + [sep] + rest, sep); |parts| >= 1 && parts[0] == head
  {
    var line := head + [sep] + rest;
    FieldsAfterSeparator(head, sep, rest, {sep});
    DropTrailingEmptyAfter([head], Fields(rest, {sep}));
    assert line[|head|] == sep;
  }

  /**
    `split` undoes `joining`: the pieces come back when none holds the separator and the
    last one is not empty (`split` drops trailing empty strings).
  */
  lemma SplitOfJoin(parts: seq<string>, sep: char)
    requires |parts| >= 1 && parts[|parts| - 1] != ""
    requires forall i :: 0 <= i < |parts| ==> !Mentions(parts[i], {sep})
    ensures Split(Join(parts, sep), sep) == parts
  {
    FieldsOfJoin(parts, sep, {sep});
    if |parts| == 1 {
    } else {
      var s := Join(parts, sep);
      assert s[|parts[0]|] == sep;
      assert Mentions(s, {sep});
      assert DropTrailingEmpty(parts) == parts;
    }
  }

  /**
    `split("\\s+")` undoes joining with single spaces: non-empty tokens free of whitespace
    come back as they were.
  */
  lemma SplitOnSpacesOfJoin(tokens: seq<string>)
    requires |tokens| >= 1
    requires forall i :: 0 <= i < |tokens| ==> tokens[i] != "" && !Mentions(tokens[i], Spaces)
    ensures SplitOnSpaces(Join(tokens, ' ')) == tokens
  {
    var s := Join(tokens, ' ');
    if |tokens| > 1 {
      FieldsOfJoin(tokens, ' ', Spaces);
      assert s[|tokens[0]|] == ' ';
      assert Mentions(s, Spaces);
      NonEmptyAll(tokens[1..]);
      assert [tokens[0]] + tokens[1..] == tokens;
      assert DropTrailingEmpty(tokens) == tokens;
    }
  }
}
