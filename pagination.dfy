/** The pager of `PaginationImplementation<T>`: the criteria loop
    `ApplySearchCriteria`, the descending sort on the engine's default sort
    property, the `Skip((page - 1) * pageSize).Take(pageSize)` window, the
    two entry points `GetPage` and `GetPageBySearchTypeAndSearchTerm`, and
    the page arithmetic `GetTotalPages`, `HasNextPage`, `HasPreviousPage`.
    The table behind `_context.Set<T>()` is a sequence of records in storage
    order. */
module Pagination {
  import opened Text
  import opened Values
  import opened Schema
  import opened Dates
  import opened Predicates
  import opened SearchFilters
  import opened Paging
  import opened Ordering

  /** One engine instance: the record type's properties, the sort property it
      was constructed with, and the date parser it uses. */
  datatype Engine = Engine(schema: Schema, defaultSortProperty: string, parseDate: DateParser)

  /** One entry of the criteria dictionary. */
  datatype Criterion = Criterion(name: string, value: Raw)

  // =====================================================================
  // Criteria
  // =====================================================================

  /** The criterion can be applied without an exception: its property is
      unknown (and skipped), or its value is admissible for the property. */
  predicate CriterionAdmissible(e: Engine, c: Criterion) {
    match Resolve(e.schema, c.name)
    case None => true
    case Some(prop) => FieldAdmissible(prop, c.value, e.parseDate)
  }

  predicate AllAdmissible(e: Engine, cs: seq<Criterion>) {
    forall k :: 0 <= k < |cs| ==> CriterionAdmissible(e, cs[k])
  }

  /** The predicate one iteration of `ApplySearchCriteria` adds, if any: none
      for an unknown property, `HandleDateTimeSearch` for a `DateTime`
      property, `HandleOtherTypesSearch` for the rest. */
  function CriterionPredicate(e: Engine, c: Criterion): (p: Option<Pred>)
    requires CriterionAdmissible(e, c)
    ensures Resolve(e.schema, c.name).None? ==> p.None?
  {
    match Resolve(e.schema, c.name)
    case None => None
    case Some(prop) => FieldPredicate(prop, c.value, e.parseDate)
  }

  /** A record passes an optional predicate: there is none, or it holds. */
  predicate Passes(o: Option<Pred>, x: Record) {
    o.None? || Eval(o.value, x)
  }

  /** A record passes a criterion. */
  predicate Satisfies(e: Engine, c: Criterion, x: Record)
    requires CriterionAdmissible(e, c)
  {
    Passes(CriterionPredicate(e, c), x)
  }

  /** The predicates present among `ops`, in order. */
  function Present(ops: seq<Option<Pred>>): (ps: seq<Pred>)
    ensures |ps| <= |ops|
  {
    if |ops| == 0 then []
    else
      var last := ops[|ops| - 1];
      Present(ops[..|ops| - 1]) + (if last.Some? then [last.value] else [])
  }

  /** A record satisfies all present predicates exactly when it passes
      every optional one. */
  lemma {:induction false} PresentMeaning(ops: seq<Option<Pred>>, x: Record)
    ensures HoldsAll(Present(ops), x) <==> forall k :: 0 <= k < |ops| ==> Passes(ops[k], x)
  {
    if |ops| > 0 {
      var init := ops[..|ops| - 1];
      var last := ops[|ops| - 1];
      PresentMeaning(init, x);
      var ps := Present(init);
      var tail := if last.Some? then [last.value] else [];
      assert Present(ops) == ps + tail;
      if HoldsAll(ps + tail, x) {
        forall k | 0 <= k < |ps| ensures Eval(ps[k], x) { assert (ps + tail)[k] == ps[k]; }
        if last.Some? { assert (ps + tail)[|ps|] == last.value; }
        forall k | 0 <= k < |ops| ensures Passes(ops[k], x) {
          if k < |init| { assert ops[k] == init[k]; }
        }
      }
      if forall k :: 0 <= k < |ops| ==> Passes(ops[k], x) {
        forall k | 0 <= k < |init| ensures Passes(init[k], x) { assert init[k] == ops[k]; }
        forall k | 0 <= k < |ps + tail| ensures Eval((ps + tail)[k], x) {
          if k < |ps| { assert (ps + tail)[k] == ps[k]; }
        }
      }
    }
  }

  /** Extending the list by one optional predicate adds it, if present. */
  lemma PresentSnoc(ops: seq<Option<Pred>>, i: nat)
    requires i < |ops|
    ensures ops[i].None? ==> Present(ops[..i + 1]) == Present(ops[..i])
    ensures ops[i].Some? ==> Present(ops[..i + 1]) == Present(ops[..i]) + [ops[i].value]
  {
    assert ops[..i + 1][..i] == ops[..i];
  }

  /** The optional predicate of each criterion, in dictionary order. */
  function Options(e: Engine, cs: seq<Criterion>): (ops: seq<Option<Pred>>)
    requires AllAdmissible(e, cs)
    ensures |ops| == |cs|
    ensures forall k :: 0 <= k < |cs| ==> ops[k] == CriterionPredicate(e, cs[k])
  {
    seq(|cs|, k requires 0 <= k < |cs| && CriterionAdmissible(e, cs[k]) => CriterionPredicate(e, cs[k]))
  }

  /** The predicates the criteria add, in dictionary order. */
  function Compile(e: Engine, cs: seq<Criterion>): seq<Pred>
    requires AllAdmissible(e, cs)
  {
    Present(Options(e, cs))
  }

  /** The filter is the conjunction of the criteria: a record passes every
      compiled predicate exactly when it passes every criterion. */
  lemma CompileMeaning(e: Engine, cs: seq<Criterion>, x: Record)
    requires AllAdmissible(e, cs)
    ensures HoldsAll(Compile(e, cs), x) <==> forall k :: 0 <= k < |cs| ==> Satisfies(e, cs[k], x)
  {
    PresentMeaning(Options(e, cs), x);
  }

  /** `ApplySearchCriteria`: chains one `Where` per criterion that yields a
      predicate, in dictionary order, and counts what is left. */
  method ApplySearchCriteria(e: Engine, query: seq<Record>, searchCriteria: seq<Criterion>)
    returns (filteredQuery: seq<Record>, totalCount: Int32)
    requires AllAdmissible(e, searchCriteria)
    requires |query| <= MaxInt32
    ensures filteredQuery == WhereAll(query, Compile(e, searchCriteria))
    ensures totalCount == |filteredQuery|
    ensures forall x :: x in filteredQuery <==>
              x in query && forall k :: 0 <= k < |searchCriteria| ==> Satisfies(e, searchCriteria[k], x)
  {
    var ops := Options(e, searchCriteria);
    filteredQuery := query;
    WhereAllNone(query);
    for i := 0 to |searchCriteria|
      invariant filteredQuery == WhereAll(query, Present(ops[..i]))
    {
      var criterion := searchCriteria[i];
      PresentSnoc(ops, i);
      var property := Resolve(e.schema, criterion.name);
      if property.None? {
        continue;
      }
      var pred: Option<Pred>;
      if property.value.clr == DateTimeType {
        pred := DateTimePredicate(property.value, criterion.value, e.parseDate);
      } else {
        pred := HandleOtherTypesSearch(property.value, criterion.value, e.parseDate);
      }
      assert pred == ops[i];
      if pred.Some? {
        WhereAllSnoc(query, Present(ops[..i]), pred.value);
        filteredQuery := Where(filteredQuery, pred.value);
      }
    }
    assert ops[..|searchCriteria|] == ops;
    totalCount := |filteredQuery|;
    WhereAllMembers(query, Compile(e, searchCriteria));
    forall x | x in query ensures HoldsAll(Compile(e, searchCriteria), x) <==>
                 forall k :: 0 <= k < |searchCriteria| ==> Satisfies(e, searchCriteria[k], x) {
      CompileMeaning(e, searchCriteria, x);
    }
  }

  /** Criteria act as a conjunction: their dictionary order does not change
      the result. */
  lemma CriteriaOrderIrrelevant(e: Engine, query: seq<Record>, cs: seq<Criterion>, ds: seq<Criterion>)
    requires AllAdmissible(e, cs) && AllAdmissible(e, ds)
    requires multiset(cs) == multiset(ds)
    ensures WhereAll(query, Compile(e, cs)) == WhereAll(query, Compile(e, ds))
  {
    forall x | x in query ensures HoldsAll(Compile(e, cs), x) <==> HoldsAll(Compile(e, ds), x) {
      CompileMeaning(e, cs, x);
      CompileMeaning(e, ds, x);
      if forall k :: 0 <= k < |cs| ==> Satisfies(e, cs[k], x) {
        forall j | 0 <= j < |ds| ensures Satisfies(e, ds[j], x) {
          assert ds[j] in multiset(ds);
          var k :| 0 <= k < |cs| && cs[k] == ds[j];
        }
      }
      if forall j :: 0 <= j < |ds| ==> Satisfies(e, ds[j], x) {
        forall k | 0 <= k < |cs| ensures Satisfies(e, cs[k], x) {
          assert cs[k] in multiset(cs);
          var j :| 0 <= j < |ds| && ds[j] == cs[k];
        }
      }
    }
    WhereAllCongruent(query, Compile(e, cs), Compile(e, ds));
  }

  /** Removing an absent entry leaves the present predicates unchanged. */
  lemma {:induction false} PresentDropNone(ops: seq<Option<Pred>>, k: nat)
    requires k < |ops| && ops[k].None?
    ensures Present(ops) == Present(ops[..k] + ops[k + 1..])
  {
    var n := |ops|;
    var rest := ops[..k] + ops[k + 1..];
    if k == n - 1 {
      assert rest == ops[..n - 1];
    } else {
      var init := ops[..n - 1];
      PresentDropNone(init, k);
      assert rest[..|rest| - 1] == init[..k] + init[k + 1..];
      assert rest[|rest| - 1] == ops[n - 1];
    }
  }

  /** A criterion that adds no predicate (its property is unknown in every
      letter case, or its value constrains nothing) can be dropped: the
      filter is the same. */
  lemma InertCriterionIgnored(e: Engine, cs: seq<Criterion>, k: nat)
    requires AllAdmissible(e, cs)
    requires k < |cs| && CriterionPredicate(e, cs[k]).None?
    ensures AllAdmissible(e, cs[..k] + cs[k + 1..])
    ensures Compile(e, cs) == Compile(e, cs[..k] + cs[k + 1..])
  {
    var ds := cs[..k] + cs[k + 1..];
    var ops := Options(e, cs);
    var rest := ops[..k] + ops[k + 1..];
    forall j | 0 <= j < |ds| ensures ds[j] == cs[if j < k then j else j + 1] {
      DropAt(cs, k, j);
    }
    forall j | 0 <= j < |ds| ensures Options(e, ds)[j] == rest[j] {
      DropAt(ops, k, j);
    }
    assert Options(e, ds) == rest;
    PresentDropNone(ops, k);
  }

  lemma DropAt<T>(s: seq<T>, k: nat, j: nat)
    requires k < |s| && j < |s| - 1
    ensures (s[..k] + s[k + 1..])[j] == s[if j < k then j else j + 1]
  {
  }

  /** In particular a criterion naming no property is skipped. */
  lemma UnknownCriterionIgnored(e: Engine, query: seq<Record>, cs: seq<Criterion>, k: nat)
    requires AllAdmissible(e, cs)
    requires k < |cs| && Resolve(e.schema, cs[k].name).None?
    ensures AllAdmissible(e, cs[..k] + cs[k + 1..])
    ensures WhereAll(query, Compile(e, cs)) == WhereAll(query, Compile(e, cs[..k] + cs[k + 1..]))
  {
    InertCriterionIgnored(e, cs, k);
  }

  // =====================================================================
  // Sort key
  // =====================================================================

  /** The order of a field value under `OrderBy`: numbers, enum codes, tick
      counts and booleans by magnitude, null first. */
  function KeyOf(v: Value): Key {
    match v
    case VNumber(n) => At(n)
    case VEnum(c) => At(c as real)
    case VTime(t) => At(t as real)
    case VBool(b) => At(if b then 1.0 else 0.0)
    case _ => Lowest
  }

  /** The key selector `x => x.<field>`. */
  function SortKey(field: string): Record -> Key {
    (r: Record) => KeyOf(Field(r, field))
  }

  // =====================================================================
  // Entry points
  // =====================================================================

  /** `Expression.Property(parameter, _defaultSortProperty)` finds an
      orderable property. */
  predicate ValidEngine(e: Engine) {
    Resolve(e.schema, e.defaultSortProperty).Some?
    && Orderable(Resolve(e.schema, e.defaultSortProperty).value.clr)
  }

  /** The types whose values `KeyOf` orders. */
  predicate Orderable(t: ClrType) {
    IsNumericType(t) || t == DateTimeType || t.EnumOf? || t == BoolType
  }

  function SortField(e: Engine): string
    requires ValidEngine(e)
  {
    Resolve(e.schema, e.defaultSortProperty).value.name
  }

  /** `OrderByDescending(x => x.<default sort property>)`. */
  function KeySelector(e: Engine): Record -> Key
    requires ValidEngine(e)
  {
    SortKey(SortField(e))
  }

  /** `GetPage`: one window of the whole table in descending sort order. */
  function GetPage(e: Engine, db: seq<Record>, page: Int32, pageSize: Int32): (data: seq<Record>)
    requires ValidEngine(e)
    ensures SortedDescending(KeySelector(e), data)
    ensures multiset(data) <= multiset(db)
    ensures |data| <= |db| && (pageSize <= 0 ==> data == [])
    ensures 0 <= pageSize ==> |data| <= pageSize
  {
    var sorted := SortDescending(KeySelector(e), db);
    WindowOfSorted(KeySelector(e), sorted, page, pageSize);
    Window(sorted, page, pageSize)
  }

  /** Reading pages `1 .. GetTotalPages` of `GetPage` lists the whole table
      in descending sort order, each record once. */
  lemma GetPageCoversTable(e: Engine, db: seq<Record>, pageSize: Int32)
    requires ValidEngine(e) && 1 <= pageSize && |db| <= MaxInt32
    ensures GetTotalPages(db, pageSize) <= MaxInt32
    ensures Pages(SortDescending(KeySelector(e), db), pageSize, GetTotalPages(db, pageSize))
         == SortDescending(KeySelector(e), db)
    ensures multiset(SortDescending(KeySelector(e), db)) == multiset(db)
  {
    PagesCoverAll(SortDescending(KeySelector(e), db), pageSize);
  }

  /** `GetTotalCount`: `Count()` throws beyond `int.MaxValue`. */
  function GetTotalCount(db: seq<Record>): (n: Int32)
    requires |db| <= MaxInt32
    ensures n == |db|
  {
    |db|
  }

  /** `GetTotalPages`: the least number of pages of `pageSize` records that
      holds the table (`pageSize == 0` divides by zero; a negative size
      rounds the negative quotient up). */
  function GetTotalPages(db: seq<Record>, pageSize: Int32): (pages: Int32)
    requires |db| <= MaxInt32 && pageSize != 0
    ensures pageSize > 0 ==> (pages - 1) * pageSize < |db| <= pages * pageSize
    ensures pageSize > 0 ==> 0 <= pages <= |db|
    ensures pageSize < 0 ==> pages * pageSize <= |db| < (pages - 1) * pageSize
  {
    CeilDivBounds(GetTotalCount(db), pageSize);
    CeilDiv(GetTotalCount(db), pageSize)
  }

  /** `HasNextPage`: for a positive size, the records before the next page's
      start do not exhaust the table. */
  function HasNextPage(db: seq<Record>, page: Int32, pageSize: Int32): (r: bool)
    requires |db| <= MaxInt32 && pageSize != 0
    ensures pageSize > 0 ==> (r <==> page * pageSize < |db|)
  {
    var t := GetTotalPages(db, pageSize);
    if pageSize > 0 then BeforeLastPage(|db|, page, pageSize, t); page < t
    else page < t
  }

  function HasPreviousPage(page: Int32): bool {
    page > 1
  }

  /** A next page is announced exactly when the next window of the table
      holds records. */
  lemma NextPageNonEmpty(db: seq<Record>, page: Int32, pageSize: Int32)
    requires |db| <= MaxInt32 && 1 <= pageSize && 1 <= page < MaxInt32 && page * pageSize <= MaxInt32
    ensures HasNextPage(db, page, pageSize) <==> |Window(db, page + 1, pageSize)| > 0
  {
    var t := GetTotalPages(db, pageSize);
    var next: Int32 := page + 1;
    assert (next - 1) * pageSize == page * pageSize;
    WindowAt(db, next, pageSize);
    MulStep(next, pageSize);
    if page < t {
      MulMono(page, t - 1, pageSize);
    } else {
      MulMono(t, page, pageSize);
    }
  }

  /** A previous page is announced exactly when the window does not start at
      the first record. */
  lemma PreviousPageIffOffset(page: Int32, pageSize: Int32)
    requires 1 <= pageSize && 1 <= page && (page - 1) * pageSize <= MaxInt32
    ensures HasPreviousPage(page) <==> Offset(page, pageSize) > 0
  {
    MulSign(page - 1, pageSize);
    if page > 1 {
      MulMono(1, page - 1, pageSize);
    }
  }

  /** The result of `GetPageBySearchTypeAndSearchTerm`: the page and the
      number of records passing the filter. A null or empty dictionary takes
      the `GetPage` path, counting the whole table. */
  function Search(e: Engine, db: seq<Record>, page: Int32, pageSize: Int32, criteria: Option<seq<Criterion>>)
    : (r: (seq<Record>, int))
    requires ValidEngine(e) && |db| <= MaxInt32
    requires criteria.Some? ==> AllAdmissible(e, criteria.value)
    ensures 0 <= r.1 <= |db|
    ensures |r.0| <= r.1
    ensures 0 <= pageSize ==> |r.0| <= pageSize
    ensures criteria.None? ==> r == (GetPage(e, db, page, pageSize), |db|)
  {
    if criteria.None? || |criteria.value| == 0 then (GetPage(e, db, page, pageSize), GetTotalCount(db))
    else
      var filtered := WhereAll(db, Compile(e, criteria.value));
      (Window(SortDescending(KeySelector(e), filtered), page, pageSize), |filtered|)
  }

  /** `GetPageBySearchTypeAndSearchTerm`. */
  method GetPageBySearchTypeAndSearchTerm(e: Engine, db: seq<Record>, page: Int32, pageSize: Int32,
                                          searchCriteria: Option<seq<Criterion>>)
    returns (data: seq<Record>, totalCount: Int32)
    requires ValidEngine(e) && |db| <= MaxInt32
    requires searchCriteria.Some? ==> AllAdmissible(e, searchCriteria.value)
    ensures (data, totalCount as int) == Search(e, db, page, pageSize, searchCriteria)
  {
    if searchCriteria.None? || |searchCriteria.value| == 0 {
      data := GetPage(e, db, page, pageSize);
      totalCount := GetTotalCount(db);
      return;
    }
    var filteredQuery, totalCountFiltered := ApplySearchCriteria(e, db, searchCriteria.value);
    var sortedQuery := SortDescending(KeySelector(e), filteredQuery);
    data := Window(sortedQuery, page, pageSize);
    totalCount := totalCountFiltered;
  }

  /** What a search returns: records of the table, each passing every
      criterion, in descending sort order, at most one page of them; the
      count is the number of table records passing every criterion. */
  lemma SearchMeaning(e: Engine, db: seq<Record>, page: Int32, pageSize: Int32, cs: seq<Criterion>)
    requires ValidEngine(e) && |db| <= MaxInt32 && AllAdmissible(e, cs)
    ensures var (data, count) := Search(e, db, page, pageSize, Some(cs));
            && SortedDescending(KeySelector(e), data)
            && (0 <= pageSize ==> |data| <= pageSize)
            && multiset(data) <= multiset(db)
            && (forall x :: x in data ==> forall k :: 0 <= k < |cs| ==> Satisfies(e, cs[k], x))
            && count == |WhereAll(db, Compile(e, cs))|
            && (forall x :: x in WhereAll(db, Compile(e, cs)) <==>
                  x in db && forall k :: 0 <= k < |cs| ==> Satisfies(e, cs[k], x))
  {
    var ps := Compile(e, cs);
    var filtered := WhereAll(db, ps);
    var sorted := SortDescending(KeySelector(e), filtered);
    var data := Window(sorted, page, pageSize);
    assert Search(e, db, page, pageSize, Some(cs)) == (data, |filtered|) by {
      if |cs| == 0 {
        assert cs == [];
        EmptyCriteriaIsPlainPage(e, db, page, pageSize);
      }
    }
    assert SortedDescending(KeySelector(e), data) && multiset(data) <= multiset(sorted) by {
      WindowOfSorted(KeySelector(e), sorted, page, pageSize);
    }
    WhereAllMembers(db, ps);
    forall x | x in db ensures HoldsAll(ps, x) <==> forall k :: 0 <= k < |cs| ==> Satisfies(e, cs[k], x) {
      CompileMeaning(e, cs, x);
    }
    forall x | x in data ensures x in filtered {
      assert x in multiset(data);
      assert x in multiset(sorted);
    }
  }

  /** The ordered list a search pages through: the table, or the records
      passing the criteria, in descending sort order. */
  function Listing(e: Engine, db: seq<Record>, criteria: Option<seq<Criterion>>): (l: seq<Record>)
    requires ValidEngine(e)
    requires criteria.Some? ==> AllAdmissible(e, criteria.value)
    ensures SortedDescending(KeySelector(e), l)
    ensures |l| <= |db| && multiset(l) <= multiset(db)
  {
    if criteria.None? || |criteria.value| == 0 then SortDescending(KeySelector(e), db)
    else
      WhereAllMembers(db, Compile(e, criteria.value));
      SortDescending(KeySelector(e), WhereAll(db, Compile(e, criteria.value)))
  }

  /** Every search result is one window of the same listing, together with
      the listing's length: successive pages of one search never overlap
      and never skip a record. */
  lemma SearchPagesListing(e: Engine, db: seq<Record>, page: Int32, pageSize: Int32, criteria: Option<seq<Criterion>>)
    requires ValidEngine(e) && |db| <= MaxInt32
    requires criteria.Some? ==> AllAdmissible(e, criteria.value)
    ensures Search(e, db, page, pageSize, criteria)
         == (Window(Listing(e, db, criteria), page, pageSize), |Listing(e, db, criteria)|)
  {
  }

  /** The two branches agree: no criteria is the general path with an empty
      filter. */
  lemma EmptyCriteriaIsPlainPage(e: Engine, db: seq<Record>, page: Int32, pageSize: Int32)
    requires ValidEngine(e) && |db| <= MaxInt32
    ensures Search(e, db, page, pageSize, None) == Search(e, db, page, pageSize, Some([]))
    ensures Search(e, db, page, pageSize, None)
         == (Window(SortDescending(KeySelector(e), WhereAll(db, Compile(e, []))), page, pageSize),
             |WhereAll(db, Compile(e, []))|)
  {
    WhereAllNone(db);
    assert Compile(e, []) == [];
  }
}
