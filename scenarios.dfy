/** The fixture of the repository's pagination tests (six patrons added in
    the order of their `FormID`, an engine sorting by `FormID`) and what the
    model computes for the test cases. The patrons are parameters that carry
    the fields the tests set. */
module Scenarios {
  import opened Text
  import opened Values
  import opened Schema
  import opened Dates
  import opened Predicates
  import opened SearchFilters
  import opened Paging
  import opened Ordering
  import opened Pagination
  import opened Response

  /** The engine of the tests, with the bare `yyyy-MM-dd` date format. */
  const TestEngine: Engine := Engine(ExternalPatronSchema, "FormID", ParseIsoDate)

  lemma TestEngineValid()
    ensures ValidEngine(TestEngine) && KeySelector(TestEngine) == SortKey("FormID")
  {
  }

  /** Days since 0001-01-01 of the six dates of birth. */
  const BirthDays: seq<int> := [722814, 726596, 724714, 725736, 727692, 722685]

  /** Genders of the six patrons: Male, Female, Female, Others, Male, Others. */
  const Genders: seq<int> := [0, 1, 1, 2, 0, 2]

  /** `t` is the test table: patron `i` has `FormID` `i + 1`, the gender
      and the date of birth (at midnight) the test gives it. */
  predicate Fixture(t: seq<Record>) {
    |t| == 6
    && forall i :: 0 <= i < 6 ==>
         Field(t[i], "FormID") == VNumber((i + 1) as real)
         && Field(t[i], "Gender") == VEnum(Genders[i])
         && Field(t[i], "DateOfBirth") == VTime(BirthDays[i] * TicksPerDay)
  }

  /** Six elements whose keys are 1 … 6 sort into reverse order. */
  lemma SixReverse<T>(key: T -> Key, t: seq<T>)
    requires |t| == 6 && forall i :: 0 <= i < 6 ==> key(t[i]) == At((i + 1) as real)
    ensures SortDescending(key, t) == [t[5], t[4], t[3], t[2], t[1], t[0]]
  {
    assert SortDescending(key, t) == Reverse(t) by {
      SortAscendingReverses(key, t);
    }
    assert Reverse(t) == [t[5], t[4], t[3], t[2], t[1], t[0]] by {
      ReverseSix(t);
    }
  }

  lemma ReverseSix<T>(t: seq<T>)
    requires |t| == 6
    ensures Reverse(t) == [t[5], t[4], t[3], t[2], t[1], t[0]]
  {
    var r := Reverse(t);
    assert r[0] == t[5] && r[1] == t[4] && r[2] == t[3];
    assert r[3] == t[2] && r[4] == t[1] && r[5] == t[0];
  }

  /** Sorting the table by `FormID`, descending, reverses it. */
  lemma TableSorted(t: seq<Record>)
    requires Fixture(t)
    ensures SortDescending(SortKey("FormID"), t) == [t[5], t[4], t[3], t[2], t[1], t[0]]
  {
    var key := SortKey("FormID");
    assert forall i :: 0 <= i < 6 ==> key(t[i]) == At((i + 1) as real);
    SixReverse(key, t);
  }

  /** `GetPage(page: 1, pageSize: 2)` returns patrons 6 and 5; the response
      counts three pages, a next one and no previous one. */
  lemma FirstPageOfTwo(t: seq<Record>)
    requires Fixture(t)
    ensures ValidEngine(TestEngine)
    ensures GetPage(TestEngine, t, 1, 2) == [t[5], t[4]]
    ensures var r := NewPagedResponse(GetPage(TestEngine, t, 1, 2), GetTotalCount(t), 1, 2);
            r.TotalPages == 3 && r.HasNextPage && !r.HasPreviousPage && r.CurrentCount == 2
  {
    TableSorted(t);
    PageOfSorted(t, [t[5], t[4], t[3], t[2], t[1], t[0]]);
    FirstOfThreePages([t[5], t[4]]);
  }

  /** Page 1 of two records is the first two of the sorted table. */
  lemma PageOfSorted(t: seq<Record>, sorted: seq<Record>)
    requires SortDescending(SortKey("FormID"), t) == sorted && |sorted| >= 2
    ensures ValidEngine(TestEngine)
    ensures GetPage(TestEngine, t, 1, 2) == [sorted[0], sorted[1]]
  {
    assert GetPage(TestEngine, t, 1, 2) == Window(sorted, 1, 2) by {
      TestEngineValid();
    }
    FirstTwo(sorted);
  }

  /** Page 1 of two is the first two elements. */
  lemma FirstTwo<T>(s: seq<T>)
    requires |s| >= 2
    ensures Window(s, 1, 2) == [s[0], s[1]]
  {
    WindowSlice(s, 1, 2);
    assert s[..2] == [s[0], s[1]];
  }

  /** Two records of six, shown two per page, make page 1 of 3. */
  lemma FirstOfThreePages<T>(data: seq<T>)
    requires |data| == 2
    ensures ResponseDefined(6, 2)
    ensures var r := NewPagedResponse(data, 6, 1, 2);
            r.TotalPages == 3 && r.HasNextPage && !r.HasPreviousPage && r.CurrentCount == 2
  {
    TotalPagesUnique(6, 2, 3);
  }

  /** `Resolve` answers with property `k` when it is the first whose name
      matches. */
  lemma ResolveAt(schema: Schema, name: string, k: nat)
    requires k < |schema| && EqualsIgnoreCase(schema[k].name, name)
    requires forall j :: 0 <= j < k ==> !EqualsIgnoreCase(schema[j].name, name)
    ensures Resolve(schema, name) == Some(schema[k])
  {
    var r := Resolve(schema, name);
    assert r.Some?;
    var k' :| 0 <= k' < |schema| && schema[k'] == r.value
              && EqualsIgnoreCase(schema[k'].name, name)
              && forall j :: 0 <= j < k' ==> !EqualsIgnoreCase(schema[j].name, name);
    assert k' == k;
  }

  /** Names of different lengths, or differing at one letter, do not match. */
  lemma Unlike(a: string, b: string, i: nat)
    requires |a| != |b| || (i < |a| == |b| && LowerChar(a[i]) != LowerChar(b[i]))
    ensures !EqualsIgnoreCase(a, b)
  {
    if |a| == |b| {
      assert Lower(a)[i] != Lower(b)[i];
    }
  }

  /** The date-of-birth property, found by name. */
  lemma ResolveDateOfBirth()
    ensures Resolve(ExternalPatronSchema, "DateOfBirth") == Some(Property("DateOfBirth", DateTimeType, true))
  {
    var name := "DateOfBirth";
    forall j | 0 <= j < 22 ensures !EqualsIgnoreCase(ExternalPatronSchema[j].name, name) {
      if j == 15 {
        Unlike(ExternalPatronSchema[j].name, name, 1);
      } else {
        Unlike(ExternalPatronSchema[j].name, name, 0);
      }
    }
    ResolveAt(ExternalPatronSchema, name, 22);
  }

  /** The gender property, found by name. */
  lemma ResolveGender()
    ensures Resolve(ExternalPatronSchema, "Gender") == Some(Property("Gender", EnumOf(Gender), true))
  {
    var name := "Gender";
    forall j | 0 <= j < 21 ensures !EqualsIgnoreCase(ExternalPatronSchema[j].name, name) {
      Unlike(ExternalPatronSchema[j].name, name, 0);
    }
    ResolveAt(ExternalPatronSchema, name, 21);
  }

  /** `"1980-01-01"` is midnight of day 722814. */
  lemma ParseFirstBirthDay()
    ensures ParseIsoDate("1980-01-01") == Some(722814 * TicksPerDay)
  {
    var s := "1980-01-01";
    assert s[0..4] == "1980" && s[5..7] == "01" && s[8..10] == "01";
    assert "1980"[..3] == "198" && "198"[..2] == "19" && "19"[..1] == "1" && "1"[..0] == "";
    assert "01"[..1] == "0" && "0"[..0] == "";
    assert DigitsValue("1980") == 1980;
    assert DigitsValue("01") == 1;
    assert DaysBeforeYear(1980) == 722814;
    assert DayNumber(1980, 1, 1) == 722814;
  }

  /** A first record that passes is kept, ahead of the rest. */
  lemma WhereAllKeepsHead(s: seq<Record>, ps: seq<Pred>)
    requires |s| > 0 && HoldsAll(ps, s[0])
    ensures WhereAll(s, ps) == [s[0]] + WhereAll(s[1..], ps)
  {
  }

  /** Records before `i` that all fail are dropped. */
  lemma {:induction false} WhereAllSkips(s: seq<Record>, ps: seq<Pred>, i: nat)
    requires i <= |s|
    requires forall k :: 0 <= k < i ==> !HoldsAll(ps, s[k])
    ensures WhereAll(s, ps) == WhereAll(s[i..], ps)
  {
    if i > 0 {
      assert !HoldsAll(ps, s[0]);
      assert WhereAll(s, ps) == WhereAll(s[1..], ps);
      WhereAllSkips(s[1..], ps, i - 1);
      assert s[1..][i - 1..] == s[i..];
    }
  }

  /** The first record that passes is kept, ahead of what follows it. */
  lemma WhereAllFirst(s: seq<Record>, ps: seq<Pred>, i: nat)
    requires i < |s| && HoldsAll(ps, s[i])
    requires forall k :: 0 <= k < i ==> !HoldsAll(ps, s[k])
    ensures WhereAll(s, ps) == [s[i]] + WhereAll(s[i + 1..], ps)
  {
    WhereAllSkips(s, ps, i);
    WhereAllKeepsHead(s[i..], ps);
    assert s[i..][1..] == s[i + 1..];
  }

  /** When exactly the record at `i` passes, the filter keeps it alone. */
  lemma WhereAllOne(s: seq<Record>, ps: seq<Pred>, i: nat)
    requires i < |s|
    requires forall k :: 0 <= k < |s| ==> (HoldsAll(ps, s[k]) <==> k == i)
    ensures WhereAll(s, ps) == [s[i]]
  {
    WhereAllFirst(s, ps, i);
    var last := s[i + 1..];
    assert WhereAll(last, ps) == [] by {
      WhereAllSkips(last, ps, |last|);
    }
  }

  /** A record passes a one-predicate filter exactly when it satisfies
      the predicate. */
  lemma HoldsOne(p: Pred, x: Record)
    ensures HoldsAll([p], x) <==> Eval(p, x)
  {
    assert [p][0] == p;
  }

  /** A single criterion compiles to its own predicate. */
  lemma CompileSingle(e: Engine, c: Criterion, p: Pred)
    requires CriterionAdmissible(e, c) && CriterionPredicate(e, c) == Some(p)
    ensures AllAdmissible(e, [c]) && Compile(e, [c]) == [p]
  {
    assert Options(e, [c]) == [Some(p)];
    assert [Some(p)][..0] == [];
  }

  /** The criterion `DateOfBirth = "1980-01-01"` as a native string. */
  const DateCriterion: Criterion := Criterion("DateOfBirth", NativeString("1980-01-01"))

  /** The date-of-birth property turns `"1980-01-01"` into the window of
      that day. */
  lemma DateFieldPredicate()
    ensures SingleDateRepresentable("1980-01-01", ParseIsoDate)
    ensures FieldAdmissible(Property("DateOfBirth", DateTimeType, true), NativeString("1980-01-01"), ParseIsoDate)
    ensures FieldPredicate(Property("DateOfBirth", DateTimeType, true), NativeString("1980-01-01"), ParseIsoDate)
         == Some(SingleDatePredicate("DateOfBirth", "1980-01-01", ParseIsoDate))
  {
    var d := 722814 * TicksPerDay;
    ParseFirstBirthDay();
    DayStartUnique(d, d);
  }

  /** It is admissible and compiles to the whole-day window of 1980-01-01. */
  lemma DateCriterionCompiles()
    ensures SingleDateRepresentable("1980-01-01", ParseIsoDate)
    ensures AllAdmissible(TestEngine, [DateCriterion])
    ensures Compile(TestEngine, [DateCriterion]) == [SingleDatePredicate("DateOfBirth", "1980-01-01", ParseIsoDate)]
  {
    ResolveDateOfBirth();
    DateFieldPredicate();
    CompileSingle(TestEngine, DateCriterion, SingleDatePredicate("DateOfBirth", "1980-01-01", ParseIsoDate));
  }

  /** A patron born at midnight of day `day` passes the 1980-01-01 window
      exactly when `day` is that day. */
  lemma BornOn(r: Record, day: nat)
    requires day <= 3_000_000 && Field(r, "DateOfBirth") == VTime(day * TicksPerDay)
    requires SingleDateRepresentable("1980-01-01", ParseIsoDate)
    ensures HoldsAll([SingleDatePredicate("DateOfBirth", "1980-01-01", ParseIsoDate)], r) <==> day == 722814
  {
    var p := SingleDatePredicate("DateOfBirth", "1980-01-01", ParseIsoDate);
    var x := day * TicksPerDay;
    assert DateOf(x) == x by {
      MultipleOfDay(day);
      DayStartUnique(x, x);
    }
    assert Eval(p, r) <==> x == 722814 * TicksPerDay by {
      ParseFirstBirthDay();
      BareDateMatchesWholeDay("DateOfBirth", "1980-01-01", ParseIsoDate, r);
    }
    HoldsOne(p, r);
  }

  /** Of the six patrons, only patron 1 was born on 1980-01-01. */
  lemma DateSelectsFirst(t: seq<Record>)
    requires Fixture(t) && SingleDateRepresentable("1980-01-01", ParseIsoDate)
    ensures forall i :: 0 <= i < 6 ==>
              (HoldsAll([SingleDatePredicate("DateOfBirth", "1980-01-01", ParseIsoDate)], t[i]) <==> i == 0)
  {
    forall i | 0 <= i < 6
      ensures HoldsAll([SingleDatePredicate("DateOfBirth", "1980-01-01", ParseIsoDate)], t[i]) <==> i == 0
    {
      BornOn(t[i], BirthDays[i]);
    }
  }

  /** A search of the test table under non-empty criteria that keep `kept`
      shows the first page of `kept` in descending `FormID` order. */
  lemma SearchOfTestEngine(t: seq<Record>, cs: seq<Criterion>, kept: seq<Record>)
    requires |t| <= MaxInt32 && |cs| > 0 && AllAdmissible(TestEngine, cs)
    requires WhereAll(t, Compile(TestEngine, cs)) == kept
    ensures ValidEngine(TestEngine)
    ensures Search(TestEngine, t, 1, 2, Some(cs)) == (Window(SortDescending(SortKey("FormID"), kept), 1, 2), |kept|)
  {
    TestEngineValid();
  }

  /** A bare date of birth `"1980-01-01"` (a native string) selects patron 1
      alone. */
  lemma SingleDateOfBirth(t: seq<Record>)
    requires Fixture(t)
    ensures ValidEngine(TestEngine) && AllAdmissible(TestEngine, [DateCriterion])
    ensures Search(TestEngine, t, 1, 2, Some([DateCriterion])) == ([t[0]], 1)
  {
    TestEngineValid();
    DateCriterionCompiles();
    DateSelectsFirst(t);
    WhereAllOne(t, [SingleDatePredicate("DateOfBirth", "1980-01-01", ParseIsoDate)], 0);
    SearchOfTestEngine(t, [DateCriterion], [t[0]]);
    WindowSlice([t[0]], 1, 2);
  }

  /** The criterion `Gender = 0` as a native `int`. */
  const MaleCriterion: Criterion := Criterion("Gender", NativeInt(0))

  /** The gender property turns a native 0 into an equality with code 0. */
  lemma MaleFieldPredicate()
    ensures FieldAdmissible(Property("Gender", EnumOf(Gender), true), NativeInt(0), ParseIsoDate)
    ensures FieldPredicate(Property("Gender", EnumOf(Gender), true), NativeInt(0), ParseIsoDate)
         == Some(Eq("Gender", VEnum(0)))
  {
    EnumFieldPredicate(Property("Gender", EnumOf(Gender), true), NativeInt(0), ParseIsoDate);
    EnumNativeIntMeaning("Gender", Gender, 0);
  }

  /** The same criterion as an HTTP request delivers it, the JSON number
      `0`, compiles to the same equality. */
  lemma JsonMaleFieldPredicate()
    ensures FieldAdmissible(Property("Gender", EnumOf(Gender), true), Element(JNumber("0", 0.0)), ParseIsoDate)
    ensures FieldPredicate(Property("Gender", EnumOf(Gender), true), Element(JNumber("0", 0.0)), ParseIsoDate)
         == Some(Eq("Gender", VEnum(0)))
  {
    assert ParseInteger("0") == Some(0);
    EnumFieldPredicate(Property("Gender", EnumOf(Gender), true), Element(JNumber("0", 0.0)), ParseIsoDate);
    EnumJsonNumberMeaning("Gender", Gender, "0", 0.0);
  }

  /** It is admissible and compiles to an equality with code 0. */
  lemma MaleCriterionCompiles()
    ensures AllAdmissible(TestEngine, [MaleCriterion])
    ensures Compile(TestEngine, [MaleCriterion]) == [Eq("Gender", VEnum(0))]
  {
    ResolveGender();
    MaleFieldPredicate();
    CompileSingle(TestEngine, MaleCriterion, Eq("Gender", VEnum(0)));
  }

  /** Patrons 1 and 5 are the male ones. */
  lemma MaleSelects(t: seq<Record>)
    requires Fixture(t)
    ensures forall i :: 0 <= i < 6 ==> (HoldsAll([Eq("Gender", VEnum(0))], t[i]) <==> i == 0 || i == 4)
  {
    var p := Eq("Gender", VEnum(0));
    forall i | 0 <= i < 6 ensures HoldsAll([p], t[i]) <==> i == 0 || i == 4 {
      HoldsOne(p, t[i]);
    }
  }

  /** A native `int` 0 on the gender selects the two male patrons, 5 before
      1. */
  lemma GenderMale(t: seq<Record>)
    requires Fixture(t)
    ensures ValidEngine(TestEngine) && AllAdmissible(TestEngine, [MaleCriterion])
    ensures Search(TestEngine, t, 1, 2, Some([MaleCriterion])) == ([t[4], t[0]], 2)
  {
    TestEngineValid();
    MaleCriterionCompiles();
    MaleFilter(t);
    SearchOfTestEngine(t, [MaleCriterion], [t[0], t[4]]);
    MaleSorted(t);
    WindowSlice([t[4], t[0]], 1, 2);
  }

  /** The male patrons, in table order. */
  lemma MaleFilter(t: seq<Record>)
    requires Fixture(t)
    ensures WhereAll(t, [Eq("Gender", VEnum(0))]) == [t[0], t[4]]
  {
    var ps := [Eq("Gender", VEnum(0))];
    MaleSelects(t);
    WhereAllFirst(t, ps, 0);
    var rest := t[1..];
    assert forall k :: 0 <= k < 5 ==> rest[k] == t[k + 1];
    WhereAllOne(rest, ps, 3);
  }

  /** Descending `FormID` puts patron 5 before patron 1. */
  lemma MaleSorted(t: seq<Record>)
    requires Fixture(t)
    ensures SortDescending(SortKey("FormID"), [t[0], t[4]]) == [t[4], t[0]]
  {
    var key := SortKey("FormID");
    assert key(t[0]) == At(1 as real) && key(t[4]) == At(5 as real);
    SortAscendingReverses(key, [t[0], t[4]]);
  }
}
