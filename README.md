# GenericPaginationService in Dafny

A model of the generic filter-and-page engine `PaginationImplementation<T>` and
of the page metadata in `PagedResponse<T>`, with proofs about both.

The engine takes three inputs:

- a page number and a page size;
- a dictionary from field name to an untyped search value;
- the table of records (`_context.Set<T>()`).

For each criterion the engine does four things:

1. It looks up the field name among the record type's properties, ignoring
   letter case. A name that matches no property is skipped.
2. It builds a predicate that depends on the property's type:
   - a string property gets a lower-cased "contains", OR-ed over the entries
     of a JSON array;
   - an enum property gets equality with a parsed code, or an OR of equalities
     with the defined codes of a JSON array;
   - a numeric property gets equality with a number;
   - a `DateTime` property gets one of three things: a one-day window, a
     one-sided bound, or a closed range.
3. It chains every predicate it built onto the query as a `Where`.
4. It counts the filtered records.

The engine then does three more steps:

- It sorts the filtered records in descending order of a configured sort
  property.
- It skips `(page - 1) * pageSize` records and takes `pageSize` of them.
- It returns that page together with the filtered count. A null or empty
  dictionary takes the plain `GetPage` path instead and counts the whole
  table.

`PagedResponse` wraps a page with its derived fields:

- `CurrentCount`;
- `TotalPages = ceil(count / size)`;
- `HasNextPage = page < TotalPages`;
- `HasPreviousPage = page > 1`.

## How the model represents the source

- **Reflection and expression trees.** The model replaces them with four
  things:
  - an explicit property registry: `Schema.Schema` is a list of name,
    CLR type and nullability, in declaration order;
  - records: `Values.Record` is a map from property name to `Value`, and a
    missing field reads as null;
  - a predicate language, `Predicates.Pred`, with the cases `Contains`, `Eq`,
    `Ge`, `Le`, `And` and `Or`, and its evaluator `Predicates.Eval`;
  - the untyped dictionary values, `Values.Raw`. A value is one of: C# null, a
    `JsonElement`, a native string, a native `int`, or any other object,
    which is known only by its `ToString()`.
- **Predicate builders.** Each builder returns `Option<Pred>`. `None` stands
  for the source's `null` expression, which means "no constraint".
- **Loops.** The code that loops in the source is a Dafny method with a
  loop. This covers `ApplySearchCriteria`, `HandleStringSearch` and
  `HandleEnumEnumerableSearch`. Each method is proved equal to a
  specification function, and lemmas state what that function means for a
  record.
- **The rest.** Everything else is a function.
- **`DateTime`.** It is a tick count: 100 ns units since 0001-01-01.
  - `t.Date` is `t - t % TicksPerDay`.
  - `AddDays(1).AddTicks(-1)` is the last tick of the day.
- **Date parsing.** `DateTime.TryParseExact` with its four formats is a
  parameter of the engine (`Dates.DateParser`). `Dates.ParseIsoDate`
  implements the bare `yyyy-MM-dd` format and is used in the scenarios.
- **C# `int` arithmetic.** It is modelled explicitly:
  - the skip offset `(page - 1) * pageSize` wraps around as unchecked 32-bit
    arithmetic;
  - LINQ clamps a negative `Skip` or `Take` to zero.
- **Exceptions.** The paths on which the source throws become preconditions:
  - `ToString()` on a null enum value;
  - `GetInt32`/`GetInt64` on text that does not fit;
  - `GetSingle`/`GetDouble` on a number that rounds to infinity, and
    `GetDecimal` on one beyond `decimal.MaxValue`;
  - `GetString` on a non-string array entry;
  - `AddDays` past `DateTime.MaxValue`;
  - a native `int` compared with a property that is not a non-nullable
    `int`;
  - a date bound (a `DateTime?` constant) compared with a non-nullable
    `DateTime` property, such as `CreatedDate`;
  - a sort property that does not exist;
  - a division by a zero page size;
  - `Count()` beyond `int.MaxValue`.
- **Scenarios.** `Scenarios` instantiates the engine for `ExternalPatron`,
  sorted by `FormID`. It proves the outcomes of the repository's own unit
  tests for any table of six records that agrees with the test fixture on
  `FormID`, `Gender` and `DateOfBirth`.

Four behaviours of the code that a reader might not expect, all of which
the model follows:

- An unparsable single date selects the first day of the calendar. It does
  not mean "no constraint".
- `ParseMaxDate` moves every parsed value to the end of its day, not only
  bare dates.
- A scalar string criterion whose text is empty matches every non-null
  string.
- A single enum value spelled as a number is accepted even when the enum
  does not define it.

## Model

| member | source | states |
|---|---|---|
| Text.Wrap32 | PaginationDemo/Utilities/Implementations/PaginationImplementation.cs:34 | unchecked `int` arithmetic: the result is congruent to the exact value modulo 2^32 and equals it when it fits |
| Text.ContainsTextAt | PaginationDemo/Utilities/Implementations/PaginationImplementation.cs:269 | `string.Contains` holds exactly when the needle occurs at some offset of the text |
| Text.ParseInt32 | PaginationDemo/Utilities/Implementations/PaginationImplementation.cs:304 | `GetInt32` succeeds exactly on integer text whose value lies in the `int` range, and returns that value |
| Text.ParseInt64 | PaginationDemo/Utilities/Implementations/PaginationImplementation.cs:369 | `GetInt64` succeeds exactly on integer text whose value lies in the `long` range, and returns that value |
| Values.RawText | PaginationDemo/Utilities/Implementations/PaginationImplementation.cs:280 | `ToString()` of a string is the string, of a JSON number or object its raw text, of JSON booleans `True`/`False`, of JSON null empty, of any other object its own text, and of a native `int` text that parses back to the number |
| Text.IntTextRoundTrip | PaginationDemo/Utilities/Implementations/PaginationImplementation.cs:313 | parsing the `ToString()` of a native `int` gives the same number back |
| Schema.Resolve | PaginationDemo/Utilities/Implementations/PaginationImplementation.cs:98-100 | the property found is the first whose name equals the key ignoring case; none is found exactly when no name matches |
| Schema.ResolveIgnoresCase | PaginationDemo/Utilities/Implementations/PaginationImplementation.cs:98-99 | two keys that differ only in letter case resolve to the same property |
| Schema.IsNumericType | PaginationDemo/Utilities/Implementations/PaginationImplementation.cs:394-406 | the eleven integer and real widths are numeric; strings, dates, enums, booleans and classes are not |
| Schema.ParseEnum | PaginationDemo/Utilities/Implementations/PaginationImplementation.cs:313 | after leading white space is skipped, text that starts like a number succeeds exactly when, without its trailing white space, it is an `int`, and gives that number whether or not the enum defines it; other text succeeds exactly when, trimmed, it is a member's name (case-sensitive), and gives that member's code |
| Schema.NumericEnumTextIgnoresWhiteSpace | PaginationDemo/Utilities/Implementations/PaginationImplementation.cs:313 | white space before and after integer text, such as `" 0 "`, gives the same code as the bare text: the integer when it fits an `int`, nothing otherwise |
| Schema.EnumNameIgnoresWhiteSpace | PaginationDemo/Utilities/Implementations/PaginationImplementation.cs:313 | white space around a member name gives the same result as the bare name |
| Schema.LookupName | PaginationDemo/Utilities/Implementations/PaginationImplementation.cs:313 | `Enum.TryParse` by name: the code found belongs to a member of that name; nothing is found exactly when no member has the name |
| Dates.DateOf | PaginationDemo/Utilities/Implementations/PaginationImplementation.cs:159 | `.Date` is a midnight no later than the instant and less than a day before it |
| Dates.EndOfDay | PaginationDemo/Utilities/Implementations/PaginationImplementation.cs:148 | `Date.AddDays(1).AddTicks(-1)` is the last tick of the same calendar day, not before the instant |
| Dates.SameDayWindow | PaginationDemo/Utilities/Implementations/PaginationImplementation.cs:159 | a later instant is at most the end of the day exactly when it lies in the same calendar day |
| Dates.ParseMinDate | PaginationDemo/Utilities/Implementations/PaginationImplementation.cs:128-138 | the parsed instant, or `MinValue` when the text is null, empty or unparsable |
| Dates.ParseMaxDate | PaginationDemo/Utilities/Implementations/PaginationImplementation.cs:140-153 | the end of the parsed value's day (never `MaxValue`), or `MaxValue` when the text is null, empty or unparsable |
| Dates.ParseIsoDate | PaginationDemo/Utilities/Implementations/PaginationImplementation.cs:132 | the format `yyyy-MM-dd` accepts exactly text of that shape naming a valid calendar date, and gives that date's midnight |
| Dates.IsoDateRoundTrip | PaginationDemo/Utilities/Implementations/PaginationImplementation.cs:132 | every valid date's `yyyy-MM-dd` text parses to that date's midnight |
| Dates.IsoDateCanonical | PaginationDemo/Utilities/Implementations/PaginationImplementation.cs:132 | any text the format accepts is the zero-padded `yyyy-MM-dd` text of the date it gives |
| Predicates.EvalOrAll | PaginationDemo/Utilities/Implementations/PaginationImplementation.cs:271-273 | the left-nested `OrElse` fold holds of a record exactly when one of its operands does |
| Predicates.Where | PaginationDemo/Utilities/Implementations/PaginationImplementation.cs:120 | `Where` keeps exactly the records satisfying the predicate, never more copies than the input has |
| Predicates.WhereAllMembers | PaginationDemo/Utilities/Implementations/PaginationImplementation.cs:117-121 | the chained filters keep exactly the records satisfying every predicate, never more copies than the input has |
| Predicates.WhereAllCount | PaginationDemo/Utilities/Implementations/PaginationImplementation.cs:117-121 | the chained filters keep every copy of a record satisfying every predicate and no copy of any other |
| Predicates.WhereAllAppend | PaginationDemo/Utilities/Implementations/PaginationImplementation.cs:117-121 | the chained filters keep the input order: filtering a concatenation filters each part in turn |
| Predicates.WhereAllNone | PaginationDemo/Utilities/Implementations/PaginationImplementation.cs:92 | with no predicate the query is unchanged |
| Predicates.WhereAllSnoc | PaginationDemo/Utilities/Implementations/PaginationImplementation.cs:120 | chaining one more `Where` onto the query conjoins its predicate to the filter |
| Predicates.WhereAllCongruent | PaginationDemo/Utilities/Implementations/PaginationImplementation.cs:117-121 | two predicate lists that agree on every record filter the same way |
| SearchFilters.SingleDatePredicate | PaginationDemo/Utilities/Implementations/PaginationImplementation.cs:155-167 | a record matches exactly when its field is a non-null date from the parsed instant (or `MinValue`) to the last tick of that instant's day; `SingleDateMeaning` restates this as "same calendar day" |
| SearchFilters.SingleDateMeaning | PaginationDemo/Utilities/Implementations/PaginationImplementation.cs:155-167 | a single date selects the non-null dates at or after the parsed instant and in the same calendar day |
| SearchFilters.BareDateMatchesWholeDay | PaginationDemo/Utilities/Implementations/PaginationImplementation.cs:155-167 | a date at midnight selects its whole day, from 00:00 to the last tick |
| SearchFilters.UnparsableDateMatchesFirstDay | PaginationDemo/Utilities/Implementations/PaginationImplementation.cs:155-159 | empty or unparsable text selects the first day of the calendar, not everything |
| SearchFilters.DateRangePredicate | PaginationDemo/Utilities/Implementations/PaginationImplementation.cs:179-208 | a pair gives no constraint exactly when both bounds are sentinels; otherwise it selects the non-null dates within each bound that is not a sentinel |
| SearchFilters.DateTimePredicate | PaginationDemo/Utilities/Implementations/PaginationImplementation.cs:168-223 | a JSON or native string gives the single-date window; a JSON array of two gives the range of its two entries; every other JSON value, longer or shorter arrays, null, native numbers and other objects give no constraint; a constraint is built only on a nullable property |
| SearchFilters.Needles | PaginationDemo/Utilities/Implementations/PaginationImplementation.cs:250-254 | the search values are exactly the lower-cased non-empty string entries of the array, and none is empty |
| SearchFilters.StringFilterMeaning | PaginationDemo/Utilities/Implementations/PaginationImplementation.cs:246-294 | an array gives no constraint exactly when it has no non-empty string, and otherwise selects the strings containing one of them, ignoring case; another non-null value selects the strings containing its lower-cased text; null gives no constraint |
| SearchFilters.EmptyTextMatchesEveryString | PaginationDemo/Utilities/Implementations/PaginationImplementation.cs:278-290 | a scalar with empty text matches every non-null string |
| SearchFilters.HandleStringSearch | PaginationDemo/Utilities/Implementations/PaginationImplementation.cs:246-294 | the loop that folds the `Contains` calls builds the specified string filter |
| SearchFilters.NumberCodes | PaginationDemo/Utilities/Implementations/PaginationImplementation.cs:302-306 | the codes are exactly the values of the array's numeric entries |
| SearchFilters.DefinedCodes | PaginationDemo/Utilities/Implementations/PaginationImplementation.cs:327-330 | the kept codes are exactly the listed codes the enum defines |
| SearchFilters.EnumListMeaning | PaginationDemo/Utilities/Implementations/PaginationImplementation.cs:322-357 | a list gives no constraint exactly when it has no defined code, and otherwise selects the records holding one of its defined codes |
| SearchFilters.HandleEnumEnumerableSearch | PaginationDemo/Utilities/Implementations/PaginationImplementation.cs:322-357 | the loop that folds the equalities builds the specified list filter |
| SearchFilters.EnumArrayMeaning | PaginationDemo/Utilities/Implementations/PaginationImplementation.cs:300-311 | a JSON array selects the records holding a defined code spelled by one of its numeric entries, and gives no constraint when no entry is a defined code |
| SearchFilters.EnumNativeIntMeaning | PaginationDemo/Utilities/Implementations/PaginationImplementation.cs:313-316 | a native `int` selects its code by equality, whether or not the enum defines it |
| SearchFilters.EnumScalarMeaning | PaginationDemo/Utilities/Implementations/PaginationImplementation.cs:313-319 | a value other than a JSON array gives one equality with the code it parses to by name or number, unchecked against the defined codes, and no constraint when it does not parse |
| SearchFilters.EnumJsonNumberMeaning | PaginationDemo/Utilities/Implementations/PaginationImplementation.cs:313-319 | a JSON number that is an `int` literal selects that code whether or not the enum defines it; a numeric literal outside `int` gives no constraint |
| SearchFilters.EnumNameMeaning | PaginationDemo/Utilities/Implementations/PaginationImplementation.cs:313-316 | a member's name, as a JSON or a native string, selects that member's code |
| SearchFilters.HandleEnumSearch | PaginationDemo/Utilities/Implementations/PaginationImplementation.cs:296-320 | the enum builder meets its specification, delegating non-empty code lists to the list builder |
| SearchFilters.NumericPredicate | PaginationDemo/Utilities/Implementations/PaginationImplementation.cs:358-386 | a constraint exists exactly for a native `int`, or for a JSON number on an `int`, `long`, `float`, `double` or `decimal` property; it is equality on that property, and integer widths compare with the parsed integer |
| SearchFilters.NumericWidthsAgree | PaginationDemo/Utilities/Implementations/PaginationImplementation.cs:362-385 | an integer literal whose value agrees with its text compares by the same number for `int`, `long`, `float`, `double` and `decimal` properties |
| SearchFilters.HandleOtherTypesSearch | PaginationDemo/Utilities/Implementations/PaginationImplementation.cs:225-244 | dispatch by property type (string, enum, numeric, `DateTime`, other) meets its specification |
| SearchFilters.FieldPredicate | PaginationDemo/Utilities/Implementations/PaginationImplementation.cs:104-115 | `bool` and class properties are never constrained, a null value constrains no non-enum property, and a non-nullable `DateTime` property is never constrained (any value that would constrain it throws) |
| Paging.Skip | PaginationDemo/Utilities/Implementations/PaginationImplementation.cs:34 | `Skip(n)` drops the first `n` elements, clamped to `0 .. length` |
| Paging.Take | PaginationDemo/Utilities/Implementations/PaginationImplementation.cs:34 | `Take(n)` keeps the first `n` elements, clamped to `0 .. length` |
| Paging.Window | PaginationDemo/Utilities/Implementations/PaginationImplementation.cs:34 | a page never holds more than the input or more than `pageSize` elements, and is empty for a size of 0 or less |
| Paging.WindowIsSlice | PaginationDemo/Utilities/Implementations/PaginationImplementation.cs:34 | every page, whatever the offset, is one contiguous slice of the input |
| Paging.WindowSlice | PaginationDemo/Utilities/Implementations/PaginationImplementation.cs:34 | without overflow a page starts at `(page - 1) * pageSize` and holds up to `pageSize` elements |
| Paging.FirstPages | PaginationDemo/Utilities/Implementations/PaginationImplementation.cs:34 | page 1 and every page below it show the first `pageSize` elements |
| Paging.WindowAt | PaginationDemo/Utilities/Implementations/PaginationImplementation.cs:34 | page `n` is the slice from `(n - 1) * pageSize` to `n * pageSize`, cut at the end |
| Paging.PagesArePrefix | PaginationDemo/Utilities/Implementations/PaginationImplementation.cs:34 | the first `n` pages, one after the other, are the first `n * pageSize` elements: pages never overlap and never skip |
| Paging.PageLength | PaginationDemo/Response/PagedResponse.cs:18 | a page holds `min(size, count - (page - 1) * size)` elements up to the last page, and none past it |
| Paging.CeilDiv | PaginationDemo/Utilities/Implementations/PaginationImplementation.cs:72 | `Math.Ceiling(a / b)` is the least integer `r` with `a <= r * b` (for a positive divisor), the mirror bound for a negative one |
| Paging.CeilDivBounds | PaginationDemo/Utilities/Implementations/PaginationImplementation.cs:72 | the page count lies between 0 and the record count, so it fits an `int` |
| Paging.PagesCoverAll | PaginationDemo/Utilities/Implementations/PaginationImplementation.cs:69-73 | pages `1 .. GetTotalPages`, one after the other, give back the whole sequence |
| Paging.PastLastPageEmpty | PaginationDemo/Utilities/Implementations/PaginationImplementation.cs:75-78 | a page beyond the page count is empty |
| Ordering.Insert | PaginationDemo/Utilities/Implementations/PaginationImplementation.cs:32 | inserting into a descending sequence keeps it descending and adds exactly the one element |
| Ordering.SortDescending | PaginationDemo/Utilities/Implementations/PaginationImplementation.cs:32 | `OrderByDescending` returns a permutation of its input in descending key order |
| Ordering.SortAscendingReverses | PaginationDemo/Utilities/Implementations/PaginationImplementation.cs:55 | input with strictly increasing keys comes back reversed |
| Ordering.WindowOfSorted | PaginationDemo/Utilities/Implementations/PaginationImplementation.cs:59 | a page of the sorted query is still sorted and holds only records of it |
| Pagination.CriterionPredicate | PaginationDemo/Utilities/Implementations/PaginationImplementation.cs:98-115 | a key that resolves to no property adds no predicate |
| Pagination.PresentMeaning | PaginationDemo/Utilities/Implementations/PaginationImplementation.cs:117-121 | a record satisfies every predicate added exactly when it passes each criterion, where a criterion without a predicate passes everything |
| Pagination.CompileMeaning | PaginationDemo/Utilities/Implementations/PaginationImplementation.cs:93-121 | the filter is the conjunction of the criteria |
| Pagination.ApplySearchCriteria | PaginationDemo/Utilities/Implementations/PaginationImplementation.cs:90-126 | the loop of chained `Where`s keeps exactly the records that satisfy every criterion, and the count is their number |
| Pagination.CriteriaOrderIrrelevant | PaginationDemo/Utilities/Implementations/PaginationImplementation.cs:93-121 | reordering the dictionary's entries does not change the filtered query |
| Pagination.InertCriterionIgnored | PaginationDemo/Utilities/Implementations/PaginationImplementation.cs:117-121 | an entry whose predicate comes out null can be removed without changing the filter |
| Pagination.UnknownCriterionIgnored | PaginationDemo/Utilities/Implementations/PaginationImplementation.cs:98-100 | an entry naming no property can be removed without changing the filtered query |
| Pagination.GetPage | PaginationDemo/Utilities/Implementations/PaginationImplementation.cs:26-36 | a page is in descending sort order, holds only table records, and holds at most `pageSize` of them |
| Pagination.GetPageCoversTable | PaginationDemo/Utilities/Implementations/PaginationImplementation.cs:26-36 | pages `1 .. GetTotalPages`, one after the other, list the whole table in sort order, each record once |
| Pagination.GetTotalCount | PaginationDemo/Utilities/Implementations/PaginationImplementation.cs:64-67 | the count is the number of records in the table |
| Pagination.GetTotalPages | PaginationDemo/Utilities/Implementations/PaginationImplementation.cs:69-73 | the page count is the least number of pages of `pageSize` that hold the table, and lies between 0 and the count |
| Pagination.HasNextPage | PaginationDemo/Utilities/Implementations/PaginationImplementation.cs:75-78 | for a positive size, a next page exists exactly when the first `page` pages do not hold the whole table; `NextPageNonEmpty` shows the next page then has records |
| Pagination.HasPreviousPage | PaginationDemo/Utilities/Implementations/PaginationImplementation.cs:80-83 | no contract of its own; its meaning, that the page does not start at the first record, is stated by `PreviousPageIffOffset` |
| Pagination.NextPageNonEmpty | PaginationDemo/Utilities/Implementations/PaginationImplementation.cs:75-78 | `HasNextPage` holds exactly when the next page of the table is not empty |
| Pagination.PreviousPageIffOffset | PaginationDemo/Utilities/Implementations/PaginationImplementation.cs:80-83 | `HasPreviousPage` holds exactly when the page does not start at the first record |
| Pagination.GetPageBySearchTypeAndSearchTerm | PaginationDemo/Utilities/Implementations/PaginationImplementation.cs:38-62 | the method returns the specified search result: the plain page and table count for empty criteria, otherwise a window of the sorted filtered query and the filtered count |
| Pagination.Search | PaginationDemo/Utilities/Implementations/PaginationImplementation.cs:38-62 | the count lies between 0 and the table size, a page never holds more records than were counted nor more than `pageSize`, and a null dictionary gives `GetPage` with the table count; `SearchMeaning` and `SearchPagesListing` state the rest |
| Pagination.SearchMeaning | PaginationDemo/Utilities/Implementations/PaginationImplementation.cs:47-61 | a search returns sorted table records that each satisfy every criterion, at most one page of them, and counts exactly the table records satisfying every criterion |
| Pagination.Listing | PaginationDemo/Utilities/Implementations/PaginationImplementation.cs:48-56 | the list a search pages through is in descending order and holds only table records |
| Pagination.SearchPagesListing | PaginationDemo/Utilities/Implementations/PaginationImplementation.cs:38-62 | each search result is one window of the same listing together with the listing's length |
| Pagination.EmptyCriteriaIsPlainPage | PaginationDemo/Utilities/Implementations/PaginationImplementation.cs:40-45 | a null dictionary and an empty one give the same result, which equals the general path with no filter |
| Response.NewPagedResponse | PaginationDemo/Response/PagedResponse.cs:14-24 | the arguments are kept; `CurrentCount` is the page's length; `TotalPages` is the ceiling of count over size; the next and previous flags are `page < TotalPages` and `page > 1` |
| Response.TotalPagesUnique | PaginationDemo/Response/PagedResponse.cs:21 | the ceiling characterisation determines the page count uniquely |
| Response.EmptyResponse | PaginationDemo/Response/PagedResponse.cs:21-22 | no records give no pages and no next page |
| Response.ResponseAgreesWithPager | PaginationDemo/Response/PagedResponse.cs:21-23 | a response built from `GetPage` and `GetTotalCount` agrees with the pager's own `GetTotalPages`, `HasNextPage` and `HasPreviousPage` |
| Response.ResponseNextPage | PaginationDemo/Response/PagedResponse.cs:22 | for any search, the response announces a next page exactly when the next page of that search holds records |
| Response.ResponsePagesCoverListing | PaginationDemo/Response/PagedResponse.cs:21 | for any search, pages `1 .. TotalPages` list every matching record once, in order |
| Response.ResponseCurrentCount | PaginationDemo/Response/PagedResponse.cs:18 | for any search, `CurrentCount` is `min(size, count - (page - 1) * size)` up to the last page and 0 past it |
| Scenarios.TestEngineValid | PaginationDemoTest/PaginationImplementationTest.cs:59 | an engine over `ExternalPatron` sorted by `FormID` is well formed |
| Scenarios.TableSorted | PaginationDemoTest/PaginationImplementationTest.cs:29-37 | the six fixture records, with `FormID` 1 to 6, sort to the reverse order |
| Scenarios.FirstPageOfTwo | PaginationDemoTest/PaginationImplementationTest.cs:62-76 | page 1 of size 2 holds `FormID` 6 then 5, out of 3 pages, with a next page and no previous one |
| Scenarios.ResolveDateOfBirth | PaginationDemo/Models/ExternalPatron.cs:37 | the key `DateOfBirth` resolves to the nullable `DateTime` property |
| Scenarios.ResolveGender | PaginationDemo/Models/ExternalPatron.cs:36 | the key `Gender` resolves to the nullable `Gender` property |
| Scenarios.ParseFirstBirthDay | PaginationDemoTest/PaginationImplementationTest.cs:86-87 | `1980-01-01` parses to the midnight of day 722814 |
| Scenarios.BornOn | PaginationDemoTest/PaginationImplementationTest.cs:79-98 | the date criterion selects a record born at midnight exactly when it was born on 1980-01-01 |
| Scenarios.SingleDateOfBirth | PaginationDemoTest/PaginationImplementationTest.cs:79-98 | `{"DateOfBirth": "1980-01-01"}` returns only `FormID` 1, with count 1 |
| Scenarios.JsonMaleFieldPredicate | PaginationDemo/Utilities/Implementations/PaginationImplementation.cs:313-319 | the HTTP form of the test's criterion, the JSON number `0`, compiles to equality with code 0 |
| Scenarios.MaleCriterionCompiles | PaginationDemoTest/PaginationImplementationTest.cs:383 | `{"Gender": 0}` compiles to equality with code 0 |
| Scenarios.MaleFilter | PaginationDemoTest/PaginationImplementationTest.cs:376-396 | the filter keeps `FormID` 1 and 5, in table order |
| Scenarios.GenderMale | PaginationDemoTest/PaginationImplementationTest.cs:376-396 | `{"Gender": 0}` returns `FormID` 5 then 1, with count 2 |

## Left out

- Entity Framework, the `DbContext`, SQL translation, dependency injection, the HTTP controller and the service are not modelled. The table is a sequence of records in storage order.
- `QueryBuilderImplementation` is not part of this model: the engine's constructor discards it.
- `ExternalPatronPage` is not part of this model. It configures the sort key `DateJoined`; the scenarios use `FormID`, as the unit tests do.
- Culture, time zones and the four format strings of `DateTime.TryParseExact` are left out. They are reduced to the parser parameter; only `yyyy-MM-dd` is given concretely.
- `float`, `double` and `decimal` are left out. JSON numbers carry an exact `real`, so the rounding of `GetSingle`, `GetDouble` and `GetDecimal` is not modelled.
- SearchFilters.NumericAdmissible: the `decimal` range is taken as exactly ±`decimal.MaxValue`, so a literal less than one unit beyond it, which `GetDecimal` may round into range, is excluded.
- `ToLower` maps ASCII letters only; culture-specific case mapping is not modelled.
- The database collation, and the order of records with equal sort keys, are not modelled. The model sorts stably.
- String properties are not orderable sort keys in this model, because collation is left out.
- `FullName` is a computed property that the database cannot translate. Here it is an ordinary field.
- Enum text that lists several comma-separated names (a flag combination) is not modelled as `Enum.TryParse` input.
- The source's checks for a missing `ToLower` or `Contains` method are not modelled; those methods always exist.
- The list branches are not modelled for native lists (`List<object>`). As in the code, a native list falls through to the scalar paths through its `ToString()`.
- The declaration of the `Gender` enum is not part of this model. Its codes are assumed to be `Male = 0, Female = 1, Others = 2`. Only `Male = 0` is backed by the test that searches for `Gender 0`; the other two follow declaration order.
- Response.NewPagedResponse: requires a non-zero size and a page count that fits an `int`. The source's `double` division gives infinity or NaN for size 0, and the cast then yields an unspecified value.
- Pagination.HasNextPage: uses the unfiltered table count, as the source does. A caller that filtered gets the right answer from the response's `HasNextPage` instead.
- Exception paths are not modelled; they are preconditions instead (listed above).
- The fixture records are constrained only on `FormID`, `Gender` and `DateOfBirth`, the fields the tests read.
