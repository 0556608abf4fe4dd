# Package challenge, modelled in Dafny

The program reads test cases of the form

    <limit> : (<no>,<weight>,<mark><cost>) (<no>,<weight>,<mark><cost>) ...

For each one it prints the numbers of the items it packs, ascending and comma-separated, or `-`
when it packs nothing. Each test case runs through four stages:

1. a record reader splits the line at `:`, reads the weight limit and rejects a limit above 100;
2. it splits the item text at whitespace and builds one item per token;
3. an item validator rejects a number above 15, a weight above 100 and a cost above 100, in
   that order;
4. items heavier than the limit are dropped. A greedy selector sorts the rest by descending
   cost and makes one pass, keeping a running total and the "previous" item, with a local swap
   for equal-cost items. A formatter prints the chosen numbers.

The repository holds three near-copies of this pipeline:

- `PackageChallenge.packageItems` is the copy `main` runs. It strips every parenthesis and
  every euro sign, and its swap only subtracts.
- `entity.Package` has `createPackage`, `optimizePackage` and `getItemNos`.
- `operations.PackageOperations` has the per-line loop of `getPackagesFromTestCaseFile`,
  `optimizePackage` and `getItemNosFromPackage`, and uses `ItemOperations.createItem`.

The model writes the shared logic once and selects the differences by parameter:

- `Records.Dialect` chooses how a token becomes an item.
- `Selection.Bookkeeping` chooses what the swap does to the running total.

Models of the numbers and strings:

- Weights, costs and limits are exact `real`s, so cost equality is exact.
- Item numbers are Java `int`s.
- Strings are `seq<char>`, sequences of Unicode code points rather than UTF-16 code units.
- `Item` has no `equals`, so two items are the same only when they are the same object. The
  model gives each item a `key`, the position of the token it was read from, and sets of items
  are sets of these keyed values. Duplicate item numbers therefore survive.
- `HashSet` iteration order is unspecified. The order that reaches the sort is an explicit
  `iteration` sequence that lists the set, and every property is stated for all such orders.

Files:

- `results.dfy`: `Option` and `Result`.
- `java_text.dfy`: the parts of `String`, `Integer.parseInt`, `Double.parseDouble`,
  `String.valueOf` and `Collectors.joining` the code uses.
- `items.dfy`: `Item`, the errors, and `createItem`.
- `records.dfy`: reading one record, for both dialects.
- `selection.dfy`: the sort, the selection loop and the swap variants.
- `format.dfy`: the formatter.
- `package.dfy`: the `Package` class.
- `package_operations.dfy`: `PackageOperations`.
- `package_challenge.dfy`: `packageItems`.

The model follows the code as written:

- Items are not deduplicated by number; identity is the object.
- The chosen set's true weight can exceed the limit; see Findings.
- `previousItem` is not updated after a swap.
- Fields after the third are ignored rather than rejected.
- The live copy parses the number and weight fields untrimmed and deletes every euro sign. The
  refactored copy trims the fields, but cuts the cost field with its untrimmed length.
- Tokens are not checked to be parenthesized. The refactored copies drop the first and last
  character whatever they are; the live copy deletes every parenthesis.
- The first error aborts the whole run or file, not just the current record.
- `Package.java:124` calls `new Item(String)`, which `Item.java` does not define. The model
  reads that token the way `ItemOperations.createItem` does.

## Model

| member | source | states |
|---|---|---|
| Items.Validate | src/operations/ItemOperations.java:22-38 | the item is built exactly when number <= 15, weight <= 100 and cost <= 100, and then carries those values |
| Items.CreateItem | src/operations/ItemOperations.java:10-38 | a built item has the given identity and meets the three upper bounds |
| Items.ItemOfFields | src/operations/ItemOperations.java:15-38 | success needs at least three fields, and the item meets the three bounds |
| Items.ReadCost | src/operations/ItemOperations.java:19-20 | a cost is read only from a field without surrounding whitespace, and is what follows its first character; whitespace around the field makes the cut overrun with an index error |
| Items.CreateItemOfWellFormed | src/operations/ItemOperations.java:15-38 | for a well-formed "n,w,Xc": success exactly when n <= 15, w <= 100, c <= 100, with item (n, w, c). Otherwise the first broken bound is reported: number, then weight, then cost. There are no lower bounds |
| Items.ReadCostOfMarked | src/operations/ItemOperations.java:19-20 | the cost field's first character is dropped whatever it is; trailing whitespace makes the cut overrun and fail |
| Items.CurrencyMarkIgnored | src/operations/ItemOperations.java:19-20 | any two non-space, non-comma marks before the cost give the same result |
| Items.PaddedCostFails | src/operations/ItemOperations.java:19 | a cost field with whitespace at either end fails with an index error |
| Items.FewerThanThreeFieldsFails | src/operations/ItemOperations.java:15-19 | fewer than three comma-separated fields always fail |
| Items.ExtraFieldsIgnored | src/operations/ItemOperations.java:15-20 | text after a non-empty third field does not change the result |
| Records.StripEnclosing | src/entity/Package.java:121-122 | the cut succeeds exactly when the token has at least two characters and the untrimmed end index fits the trimmed token. It then drops the first and last characters; otherwise it is an index error |
| Records.RefactoredTokenLosesEnds | src/operations/PackageOperations.java:113-116 | a trimmed token loses exactly its first and last characters and is read by `createItem` |
| Records.ReadToken | src/entity/Package.java:121-124 | an item read from a token, in either copy, has the token's identity and meets the three upper bounds |
| Records.LiveItem | src/PackageChallenge.java:47-71 | a live item has the token's identity and meets the three upper bounds |
| Records.LiveItemOfFields | src/PackageChallenge.java:49-71 | a live item is built only from at least three fields, has the given identity and meets the three upper bounds |
| Records.LiveItemOfWellFormed | src/PackageChallenge.java:49-71 | the live reader on "n,w,c" succeeds exactly under the three bounds with item (n, w, c after euro signs are deleted). Otherwise the first broken bound, in order, is reported |
| Records.LiveEurosIgnored | src/PackageChallenge.java:53-55 | two cost fields that agree once their euro signs are deleted give the same item |
| Records.Unparenthesized | src/PackageChallenge.java:41-44 | the live copy reads the trimmed token with its parentheses deleted: no parenthesis is left, and every other character occurs as often as before |
| JavaText.RemoveCharsOne | src/PackageChallenge.java:43 | a single character is deleted exactly when it is one of the characters removed |
| JavaText.RemoveCharsAppend | src/PackageChallenge.java:43 | deleting characters from two joined pieces gives the two results joined, so the characters kept stay in their order |
| Records.ReadLimit | src/entity/Package.java:104-107 | reading the limit fails only with a missing piece or a malformed number |
| Records.ReadHeader | src/entity/Package.java:104-115 | a read header carries the limit as read, at most 100. A limit above 100 fails with the limit error before the item text is looked at, and a limit that cannot be read passes its error on |
| Records.ReadLimitOf | src/entity/Package.java:104-107 | the limit is the number written before the first colon, whatever follows the colon |
| Records.ReadHeaderOf | src/entity/Package.java:104-115 | a record "limit : t1 t2 ..." with a limit of at most 100 reads as that limit and exactly the tokens written after the colon, in their order |
| JavaText.SplitOnSpacesOfJoin | src/entity/Package.java:114-115 | splitting at runs of whitespace gives back non-empty, whitespace-free tokens that were joined with single spaces |
| Records.Gather | src/entity/Package.java:118-130 | every gathered item weighs no more than the limit and is the item read from its own token |
| Records.GatherItems | src/entity/Package.java:118-130 | the token loop returns exactly the gathered items and the first failure |
| Records.GatherStops | src/entity/Package.java:118-130 | once a token fails, later tokens change nothing |
| Records.GatherSucceeds | src/entity/Package.java:118-130 | the loop finishes without an exception exactly when every token can be read |
| Records.GatherFirstError | src/entity/Package.java:118-130 | the first token that cannot be read decides the exception |
| Records.GatherKeepsLight | src/entity/Package.java:125-129 | after a full pass, an item is kept exactly when it was read from its token and weighs no more than the limit; heavier items are dropped without error |
| Records.ParseRecord | src/operations/PackageOperations.java:97-121 | a record read has the header's limit, at most 100, and every candidate weighs no more than it and meets the item bounds |
| Records.ItemsBeforeFailure | src/entity/Package.java:101-130 | the items a throwing reader holds: none when the header fails, never heavier than the limit, and exactly the candidates when the record is read |
| Records.ParseRecordSucceeds | src/operations/PackageOperations.java:97-121 | once the header is read, the record succeeds exactly when every token can be read |
| Records.ParseRecordCandidates | src/operations/PackageOperations.java:100-121 | the candidates are exactly the tokens' items within the limit, and the limit is the header's |
| Records.ParseRecordFirstError | src/operations/PackageOperations.java:116-121 | a token that cannot be read aborts the record even if its item would have been dropped for weight; the first such token decides the error |
| Records.LimitCheckedFirst | src/entity/Package.java:104-112 | a limit above 100 aborts the record whatever follows the colon |
| Records.LightestTooHeavy | src/PackageChallenge.java:129 | the live reader reads "8 : (1,15.3,€34)" without error as limit 8 with no candidate: its one item is valid but weighs 15.3 |
| Selection.SortByCostDescending | src/entity/Package.java:52 | the visit order is a permutation of the iteration order, and no item costs more than the one before it |
| Selection.SortKeepsDescending | src/entity/Package.java:52 | a list already in descending cost order is left as it is, so every such order of the candidates can be visited |
| Selection.ChooseInOrder | src/entity/Package.java:52-88 | an iteration order already in descending cost is visited as it is |
| Selection.Enumerate | src/entity/Package.java:52 | lists every object of the set exactly once |
| Selection.Insert | src/entity/Package.java:52 | the result holds the list's items plus the one inserted, and starts with the inserted item or the list's first element |
| Selection.Visit | src/entity/Package.java:62-87 | one loop iteration computes exactly `Step` |
| Selection.Step | src/entity/Package.java:62-87 | after an iteration a previous item is recorded, and either the item has joined (and nothing but the previous item has left) or nothing changed |
| Selection.StepEffects | src/operations/PackageOperations.java:48-73 | swap when overflowing with equal cost and strictly lighter: previous out, item in, total adjusted per variant, previous unchanged unless corrected. Any other overflow changes nothing. An item that fits joins and becomes previous |
| Selection.Run | src/entity/Package.java:57-88 | a previous item is recorded exactly once something has been visited |
| Selection.Select | src/entity/Package.java:52-88 | the loop's chosen set equals the fold over the sorted candidates |
| Selection.Choose | src/entity/Package.java:52-90 | the chosen items come from the candidates, and the result is empty exactly when there are no candidates |
| Selection.RunInvariant | src/entity/Package.java:62-79 | the package is empty exactly when no previous item is recorded, exactly before the first iteration; a swap never empties it |
| Selection.RunWithinVisit | src/entity/Package.java:58-88 | only visited items are chosen or remembered |
| Selection.RunWithinLimit | src/PackageChallenge.java:94-118 | with every candidate within the limit, the running total stays within it in every copy, whatever the sign of the weights |
| Selection.RunNonNegative | src/entity/Package.java:62-87 | in the copies that subtract and then add, the running total stays non-negative for non-negative weights |
| Selection.RunDistinctCosts | src/entity/Package.java:70-87 | with pairwise distinct costs every copy makes the same moves as the corrected swap, and the running total is the chosen set's true weight |
| Selection.DistinctCostsWithinLimit | src/entity/Package.java:70-87 | with distinct costs, the chosen set's true weight is within the limit |
| Selection.StalePreviousOverflows | src/entity/Package.java:70-79 | limit 10 with p(6), a(5), b(5.5) of equal cost chooses {a, b}; the total reads 4.5 and the true weight is 10.5 |
| Selection.SampleFirstThree | src/PackageChallenge.java:91-118 | on the sample, after items 6, 8 and 9 both swap variants hold {8, 9}; the totals are 6.76 and 26.12 |
| Selection.LiveSampleRun | src/PackageChallenge.java:91-118 | the live pass over the sample ends with {2, 8, 9} and a total of 40.56 |
| Selection.LiveSwapOverflows | src/PackageChallenge.java:104-110 | the live pass over the sample chooses {2, 8, 9}, whose true weight is 59.92 against a limit of 56 |
| Selection.RefactoredOnSample | src/entity/Package.java:70-87 | the subtract-then-add copies choose {8, 9} on the same visit |
| Selection.SampleChoices | src/PackageChallenge.java:131 | the candidates are written out by hand with the values of the commented-out sample record, keyed by token position; their sample visit lists each light candidate once and is kept by the sort. On it, the live pipeline's `Choose` gives {2, 8, 9} and the refactored copies' gives {8, 9} |
| Selection.ExchangeKeepsTotal | src/entity/Package.java:72-79 | with the corrected swap, the total is always the chosen set's true weight and the previous item is in the package |
| Selection.ExchangeWithinLimit | src/entity/Package.java:70-87 | with the corrected swap, the chosen set's true weight is within the limit |
| Selection.ExchangeOnStaleExample | src/entity/Package.java:72-79 | with the corrected swap, the stale-previous example keeps only {a} |
| Format.SortedNos | src/entity/Package.java:44 | the numbers are in ascending order and each belongs to an item |
| Format.SortedNosCounts | src/entity/Package.java:44 | each number occurs as often as items carry it |
| Format.SortedNosLength | src/entity/Package.java:44 | one number per item |
| Format.FormatIds | src/operations/PackageOperations.java:23-30 | the output is "-" exactly when the package is empty. Otherwise splitting it at commas and parsing each piece gives back the sorted numbers, one per item |
| Entity.Package.constructor | src/entity/Package.java:19-23 | stores the items and the limit |
| Entity.Package.GetItemNos | src/entity/Package.java:35-45 | "-" exactly when empty; otherwise the pieces parse back to numbers that are ascending and occur as often as items carry them |
| Entity.Package.OptimizePackage | src/entity/Package.java:47-92 | returns a fresh package with the same limit; its items are the subtract-then-add selection over one iteration order, a subset of this package's items, and empty exactly when this package is |
| Entity.Package.CreatePackage | src/entity/Package.java:99-133 | the fields end as the reader left them: the limit once read, and the items gathered before any failure. The error is the record's, and on success the fields are the record |
| Operations.GetItemNosFromPackage | src/operations/PackageOperations.java:20-31 | the same text as the package's own `getItemNos`: "-" exactly when empty |
| Operations.OptimizePackage | src/operations/PackageOperations.java:33-78 | returns a fresh package with the same limit, holding the subtract-then-add selection, a subset of the input that is empty exactly when the input is |
| Operations.PackageFromLine | src/operations/PackageOperations.java:94-123 | succeeds exactly when the record can be read, with a fresh package holding its limit and candidates; otherwise it fails with the record's exception |
| Operations.PackagesFromLines | src/operations/PackageOperations.java:89-125 | fails exactly when some non-empty line fails, with that exception; otherwise each package holds the request of its line |
| Operations.Parsed | src/operations/PackageOperations.java:94-121 | one outcome per record |
| Operations.ParsedAt | src/operations/PackageOperations.java:94-121 | the outcome at each position is that record read on its own |
| Operations.ReadAll | src/operations/PackageOperations.java:89-125 | a batch read gives one request per record; a failing batch fails with the exception of one of its records |
| Operations.Requests | src/operations/PackageOperations.java:89-125 | a file read gives one request per non-empty line. A failing file fails with the exception of one of its non-empty lines |
| Operations.OnePackagePerLine | src/operations/PackageOperations.java:89-125 | a file is read without error exactly when each of its non-empty lines is, and then gives one request per non-empty line, in line order |
| Operations.FirstFailingLine | src/operations/PackageOperations.java:94-123 | the file fails with the exception of its first non-empty line that cannot be read |
| Operations.ReadAllSucceeds | src/operations/PackageOperations.java:89-125 | the batch succeeds exactly when every record does, and then lists their requests in order |
| Operations.ReadAllFirstError | src/operations/PackageOperations.java:89-125 | the batch fails with the first failing record's exception |
| Challenge.StripParentheses | src/PackageChallenge.java:39-44 | every slot of the token array is replaced, in place, by the token trimmed and without parentheses |
| Challenge.ReadItems | src/PackageChallenge.java:47-77 | the item loop returns exactly the gathered light items and the first failure |
| Challenge.ReadItem | src/PackageChallenge.java:49-76 | one iteration of the item loop is one step of the fold |
| Challenge.PackItems | src/PackageChallenge.java:79-121 | "-" exactly when there is no candidate; otherwise the formatted subtract-only selection over one iteration order |
| Challenge.PackageItems | src/PackageChallenge.java:19-122 | fails exactly with the record's exception. Otherwise it returns the formatted subtract-only selection of the candidates in one iteration order, which is "-" exactly when there is no candidate |

## Left out

- `main`, `Scanner`, `Paths`, `System.out` and `System.exit`, and the file-opening shell of
  `getPackagesFromTestCaseFile`, are not modelled. The line loop takes the lines as a
  `seq<string>`. `Scanner.hasNext` stopping before trailing whitespace-only lines is not modelled.
- The static `packageCount` counters and the exception message texts are not modelled.
  `ConstraintException` and the Java runtime exceptions are variants of `Items.Error`.
- IEEE double rounding is not modelled: numbers are exact rationals.
- `Double.parseDouble` and `Integer.parseInt` accept only plain decimal notation with an
  optional sign, not exponents, `NaN`, `Infinity`, hexadecimal or type suffixes.
- Strings are sequences of code points, not UTF-16 code units as Java's `length` and
  `substring` count them. A character above U+FFFF is one `char` here and two units in Java.
- Items.CurrencyMarkIgnored: holds for marks up to U+FFFF only in the program. A mark above
  U+FFFF is dropped whole here; Java keeps its low surrogate, and `parseDouble` throws.
- Items.ReadCostOfMarked: the same caveat. A mark above U+FFFF is dropped whole here but only
  half-dropped by the program.
- Regular-expression matching is reduced to character-class splits and deletions. `split("\\s+")`
  covers the six ASCII white-space characters.
- `HashSet` hashing is not modelled: its iteration order is a parameter. The sort is an insertion
  sort that reorders only for strictly higher cost, which matches a stable sort of that order.
- Selection.Choose: the chosen set is not stated to be within the limit, because the code does not
  ensure it (see Findings). `RunWithinLimit` bounds the running total instead.
- Format.SortedNos: the order among items with the same number is not modelled, since only the
  numbers are printed.
- `Package(String)` only calls `createPackage` and is covered by `CreatePackage`; the getters
  `getItems` and `getMaxWeight` are the fields themselves.
- `Item.toString` is not used by the pipeline.

## Findings

| source | as written | input that shows it | evidently intended | confidence | as-written member | corrected member |
|---|---|---|---|---|---|---|
| src/PackageChallenge.java:104-110 | the swap subtracts the removed item's weight from the total but never adds the new item's | the record at src/PackageChallenge.java:131 (limit 56), with item 6 visited before item 8 (both cost 79), chooses {2, 8, 9}, which weighs 59.92 | the total becomes total − removed + added, and the new item becomes the previous one, so the package stays within the limit | not executed | Selection.LiveSwapOverflows | Selection.ExchangeWithinLimit |
| src/entity/Package.java:72-79 | after a swap `previousItem` still names the removed item, so a later equal-cost item can "replace" it again and join | limit 10, items p(6, cost 5), a(5, cost 5), b(5.5, cost 5) visited in that order choose {a, b}, which weighs 10.5 | the item swapped in becomes the previous one | not executed | Selection.StalePreviousOverflows | Selection.ExchangeOnStaleExample |

The three pipeline copies use the code as written (`SubtractOnly` or `SubtractThenAdd`).
`Selection.Bookkeeping.Exchange` is the corrected swap. `Selection.ExchangeKeepsTotal` and
`Selection.ExchangeWithinLimit` prove the intended invariant for it: the running total is the
package's true weight, and that weight is within the limit.
