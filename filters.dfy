/** The per-field predicate builders of `PaginationImplementation<T>`
    (`HandleDateTimeSearch`, `HandleSingleDateTimeSearch`,
    `HandleOtherTypesSearch`, `HandleStringSearch`, `HandleEnumSearch`,
    `HandleEnumEnumerableSearch`, `HandleNumericSearch`). Each builder turns
    one property and one raw search value into a predicate, or into `None`
    when the value puts no constraint on the property. The builders that the
    source writes as loops are methods, each proved equal to a specification
    function; lemmas state what the specification functions mean for a
    record. */
module SearchFilters {
  import opened Text
  import opened Values
  import opened Schema
  import opened Dates
  import opened Predicates

  // =====================================================================
  // DateTime properties
  // =====================================================================

  /** `HandleSingleDateTimeSearch` does not overflow `AddDays` on this text. */
  predicate SingleDateRepresentable(s: string, parse: DateParser) {
    HasNextDay(ParseMinDate(Some(s), parse))
  }

  /** `HandleSingleDateTimeSearch`: from the parsed instant (or `MinValue`)
      to the last tick of that instant's day, both ends inclusive. */
  function SingleDatePredicate(field: string, s: string, parse: DateParser): (p: Pred)
    requires SingleDateRepresentable(s, parse)
    ensures forall r :: Eval(p, r) <==>
              Field(r, field).VTime?
              && ParseMinDate(Some(s), parse) <= Field(r, field).ticks <= EndOfDay(ParseMinDate(Some(s), parse))
  {
    var start := ParseMinDate(Some(s), parse);
    And(Ge(field, start), Le(field, EndOfDay(start)))
  }

  /** `x` lies at or after `start` and in the same calendar day. */
  predicate SameDayFrom(x: int, start: Ticks) {
    start <= x <= MaxTicks && DateOf(x) == DateOf(start)
  }

  /** A single date value selects the records whose date is at or after the
      parsed instant and in the same calendar day; nulls never match. */
  lemma SingleDateMeaning(field: string, s: string, parse: DateParser, r: Record)
    requires SingleDateRepresentable(s, parse)
    ensures Eval(SingleDatePredicate(field, s, parse), r) <==>
              Field(r, field).VTime? && SameDayFrom(Field(r, field).ticks, ParseMinDate(Some(s), parse))
  {
    var start := ParseMinDate(Some(s), parse);
    var v := Field(r, field);
    if v.VTime? && start <= v.ticks <= EndOfDay(start) {
      SameDayWindow(start, v.ticks);
    }
    if v.VTime? && SameDayFrom(v.ticks, start) {
      SameDayWindow(start, v.ticks);
    }
  }

  /** A bare calendar date selects its whole day,
      `[D 00:00:00.0000000, D 23:59:59.9999999]`. */
  lemma BareDateMatchesWholeDay(field: string, s: string, parse: DateParser, r: Record)
    requires s != "" && parse(s).Some? && parse(s).value % TicksPerDay == 0
    requires SingleDateRepresentable(s, parse)
    ensures Eval(SingleDatePredicate(field, s, parse), r) <==>
              Field(r, field).VTime? && 0 <= Field(r, field).ticks <= MaxTicks
              && DateOf(Field(r, field).ticks) == parse(s).value
  {
    var d := parse(s).value;
    SingleDateMeaning(field, s, parse, r);
    DayStartUnique(d, d);
    var v := Field(r, field);
    if v.VTime? && 0 <= v.ticks <= MaxTicks && DateOf(v.ticks) == d {
      assert d <= v.ticks;
    }
  }

  /** Text that does not parse is not "no constraint": it selects the first
      day of the calendar, 0001-01-01. */
  lemma UnparsableDateMatchesFirstDay(field: string, s: string, parse: DateParser, r: Record)
    requires s == "" || parse(s).None?
    ensures SingleDateRepresentable(s, parse)
    ensures Eval(SingleDatePredicate(field, s, parse), r) <==>
              Field(r, field).VTime? && 0 <= Field(r, field).ticks < TicksPerDay
  {
    assert DateOf(MinValue) == 0;
    SingleDateMeaning(field, s, parse, r);
    var v := Field(r, field);
    if v.VTime? && 0 <= v.ticks < TicksPerDay {
      DayStartUnique(v.ticks, 0);
    }
  }

  /** The two-element form `[min, max]` of `HandleDateTimeSearch`. A bound
      that resolves to its sentinel (`MinValue`, `MaxValue`) is absent. */
  function DateRangePredicate(field: string, lo: Option<string>, hi: Option<string>, parse: DateParser): (p: Option<Pred>)
    requires MaxDateRepresentable(hi, parse)
    ensures p.None? <==> ParseMinDate(lo, parse) == MinValue && ParseMaxDate(hi, parse) == MaxValue
    ensures p.Some? ==> forall r :: Eval(p.value, r) <==>
              Field(r, field).VTime?
              && (ParseMinDate(lo, parse) != MinValue ==> ParseMinDate(lo, parse) <= Field(r, field).ticks)
              && (ParseMaxDate(hi, parse) != MaxValue ==> Field(r, field).ticks <= ParseMaxDate(hi, parse))
  {
    var minDate := ParseMinDate(lo, parse);
    var maxDate := ParseMaxDate(hi, parse);
    if minDate != MinValue && maxDate != MaxValue then Some(And(Ge(field, minDate), Le(field, maxDate)))
    else if minDate != MinValue then Some(Ge(field, minDate))
    else if maxDate != MaxValue then Some(Le(field, maxDate))
    else None
  }

  /** The value can be handled by `HandleDateTimeSearch` without an exception:
      the elements of a pair are strings or nulls (`GetString`), no
      end-of-day computation runs past `MaxValue`, and a comparison is built
      only against a nullable property (the bounds are `DateTime?` constants,
      and `Expression.GreaterThanOrEqual`/`LessThanOrEqual` refuse a
      `DateTime` operand beside a `DateTime?` one). */
  predicate DateAdmissible(prop: Property, raw: Raw, parse: DateParser) {
    match raw
    case Element(JArray(items)) =>
      |items| == 2 ==>
        (items[0].JString? || items[0].JNull?) && (items[1].JString? || items[1].JNull?)
        && MaxDateRepresentable(GetString(items[1]), parse)
        && (prop.nullable
            || (ParseMinDate(GetString(items[0]), parse) == MinValue
                && ParseMaxDate(GetString(items[1]), parse) == MaxValue))
    case Element(JString(s)) => prop.nullable && SingleDateRepresentable(s, parse)
    case NativeString(s) => prop.nullable && SingleDateRepresentable(s, parse)
    case _ => true
  }

  /** `HandleDateTimeSearch`: a JSON string or a native string is a single
      date, a JSON array of two elements is a range, anything else puts no
      constraint on the property. */
  function DateTimePredicate(prop: Property, raw: Raw, parse: DateParser): (p: Option<Pred>)
    requires DateAdmissible(prop, raw, parse)
    ensures raw.Element? && raw.j.JString? ==> p == Some(SingleDatePredicate(prop.name, raw.j.s, parse))
    ensures raw.NativeString? ==> p == Some(SingleDatePredicate(prop.name, raw.s, parse))
    ensures IsJsonArray(raw) && |raw.j.items| == 2 ==>
              p == DateRangePredicate(prop.name, GetString(raw.j.items[0]), GetString(raw.j.items[1]), parse)
    ensures IsJsonArray(raw) && |raw.j.items| != 2 ==> p.None?
    ensures raw.Element? && !raw.j.JString? && !raw.j.JArray? ==> p.None?
    ensures raw == Null || raw.NativeInt? || raw.Other? ==> p.None?
    ensures p.Some? ==> prop.nullable
  {
    match raw
    case Element(JArray(items)) =>
      if |items| == 2 then DateRangePredicate(prop.name, GetString(items[0]), GetString(items[1]), parse)
      else None
    case Element(JString(s)) => Some(SingleDatePredicate(prop.name, s, parse))
    case NativeString(s) => Some(SingleDatePredicate(prop.name, s, parse))
    case _ => None
  }

  // =====================================================================
  // String properties
  // =====================================================================

  /** The entries of a JSON array that are non-empty strings, each lower-cased,
      in array order (`.Where(String).Select(ToLower).Where(!IsNullOrEmpty)`). */
  function Needles(items: seq<Json>): (ns: seq<string>)
    ensures forall n :: n in ns ==> n != ""
    ensures forall n :: n in ns <==>
              exists i :: 0 <= i < |items| && items[i].JString? && items[i].s != "" && Lower(items[i].s) == n
  {
    if |items| == 0 then []
    else
      var rest := Needles(items[1..]);
      assert forall i :: 1 <= i < |items| ==> items[i] == items[1..][i - 1];
      if items[0].JString? && items[0].s != "" then [Lower(items[0].s)] + rest else rest
  }

  function ContainsEach(field: string, ns: seq<string>): (ps: seq<Pred>)
    ensures |ps| == |ns|
    ensures forall k :: 0 <= k < |ns| ==> ps[k] == Contains(field, ns[k])
  {
    seq(|ns|, k requires 0 <= k < |ns| => Contains(field, ns[k]))
  }

  /** Specification of `HandleStringSearch`. */
  function StringFilter(field: string, raw: Raw): Option<Pred> {
    if IsJsonArray(raw) then
      var ns := Needles(raw.j.items);
      if |ns| == 0 then None else Some(OrAll(ContainsEach(field, ns)))
    else if raw != Null then Some(Contains(field, Lower(RawText(raw))))
    else None
  }

  /** What a string criterion selects. A JSON array selects the records whose
      lower-cased field contains one of its non-empty string entries,
      lower-cased, and constrains nothing when it has no such entry; any
      other non-null value is lower-cased through `ToString()` and must be
      contained; null constrains nothing. Null fields never match. */
  lemma StringFilterMeaning(field: string, raw: Raw, r: Record)
    ensures raw == Null ==> StringFilter(field, raw).None?
    ensures IsJsonArray(raw) ==>
              (StringFilter(field, raw).None? <==>
                 forall i :: 0 <= i < |raw.j.items| ==> !(raw.j.items[i].JString? && raw.j.items[i].s != ""))
    ensures IsJsonArray(raw) && StringFilter(field, raw).Some? ==>
              (Eval(StringFilter(field, raw).value, r) <==>
                 Field(r, field).VString?
                 && exists i :: 0 <= i < |raw.j.items| && raw.j.items[i].JString? && raw.j.items[i].s != ""
                                && ContainsText(Lower(Field(r, field).s), Lower(raw.j.items[i].s)))
    ensures !IsJsonArray(raw) && raw != Null ==>
              StringFilter(field, raw).Some?
              && (Eval(StringFilter(field, raw).value, r) <==>
                    Field(r, field).VString? && ContainsText(Lower(Field(r, field).s), Lower(RawText(raw))))
  {
    if IsJsonArray(raw) {
      var items := raw.j.items;
      var ns := Needles(items);
      if |ns| == 0 {
        forall i | 0 <= i < |items| ensures !(items[i].JString? && items[i].s != "") {
          assert items[i].JString? ==> Lower(items[i].s) !in ns;
        }
      } else {
        assert ns[0] in ns;
        var ps := ContainsEach(field, ns);
        EvalOrAll(ps, r);
        if Eval(OrAll(ps), r) {
          var k :| 0 <= k < |ps| && Eval(ps[k], r);
          assert ns[k] in ns;
        }
        if Field(r, field).VString?
           && exists i :: 0 <= i < |items| && items[i].JString? && items[i].s != ""
                          && ContainsText(Lower(Field(r, field).s), Lower(items[i].s)) {
          var i :| 0 <= i < |items| && items[i].JString? && items[i].s != ""
                   && ContainsText(Lower(Field(r, field).s), Lower(items[i].s));
          assert Lower(items[i].s) in ns;
          var k :| 0 <= k < |ns| && ns[k] == Lower(items[i].s);
          assert Eval(ps[k], r);
        }
      }
    }
  }

  /** A scalar whose text is empty (`""`, JSON null) matches every record
      whose field is a non-null string. */
  lemma EmptyTextMatchesEveryString(field: string, raw: Raw, r: Record)
    requires raw != Null && !IsJsonArray(raw) && RawText(raw) == ""
    ensures StringFilter(field, raw).Some?
    ensures Eval(StringFilter(field, raw).value, r) <==> Field(r, field).VString?
  {
    if Field(r, field).VString? {
      assert ContainsText(Lower(Field(r, field).s), "");
    }
  }

  /** `HandleStringSearch`. */
  method HandleStringSearch(field: string, raw: Raw) returns (p: Option<Pred>)
    ensures p == StringFilter(field, raw)
  {
    if IsJsonArray(raw) {
      var searchValues := Needles(raw.j.items);
      if |searchValues| == 0 {
        return None;
      }
      var combined: Option<Pred> := None;
      for i := 0 to |searchValues|
        invariant combined == if i == 0 then None else Some(OrAll(ContainsEach(field, searchValues[..i])))
      {
        var containsExpression := Contains(field, searchValues[i]);
        assert ContainsEach(field, searchValues[..i + 1])
            == ContainsEach(field, searchValues[..i]) + [containsExpression];
        combined := if combined.None? then Some(containsExpression) else Some(Or(combined.value, containsExpression));
      }
      assert searchValues[..|searchValues|] == searchValues;
      p := combined;
    } else if raw != Null {
      p := Some(Contains(field, Lower(RawText(raw))));
    } else {
      p := None;
    }
  }

  // =====================================================================
  // Enum properties
  // =====================================================================

  /** Every JSON number in an array is an integer that fits an `int`
      (`GetInt32` throws otherwise). */
  predicate NumbersAreInt32(items: seq<Json>) {
    forall i :: 0 <= i < |items| && items[i].JNumber? ==> ParseInt32(items[i].text).Some?
  }

  /** `.Where(Number).Select(GetInt32)`: the numeric entries, in order. */
  function NumberCodes(items: seq<Json>): (codes: seq<int>)
    requires NumbersAreInt32(items)
    ensures forall c :: c in codes <==>
              exists i :: 0 <= i < |items| && items[i].JNumber? && ParseInt32(items[i].text).value == c
  {
    if |items| == 0 then []
    else
      var rest := NumberCodes(items[1..]);
      assert forall i :: 1 <= i < |items| ==> items[i] == items[1..][i - 1];
      if items[0].JNumber? then [ParseInt32(items[0].text).value as int] + rest else rest
  }

  /** `.Where(v => Enum.IsDefined(type, v))`: the defined codes, in order. */
  function DefinedCodes(e: EnumType, values: seq<int>): (codes: seq<int>)
    ensures forall c :: c in codes <==> c in values && IsDefined(e, c)
  {
    if |values| == 0 then []
    else
      var rest := DefinedCodes(e, values[1..]);
      assert forall c :: c in values <==> c == values[0] || c in values[1..];
      if IsDefined(e, values[0]) then [values[0]] + rest else rest
  }

  function EqEach(field: string, codes: seq<int>): (ps: seq<Pred>)
    ensures |ps| == |codes|
    ensures forall k :: 0 <= k < |codes| ==> ps[k] == Eq(field, VEnum(codes[k]))
  {
    seq(|codes|, k requires 0 <= k < |codes| => Eq(field, VEnum(codes[k])))
  }

  /** Specification of `HandleEnumEnumerableSearch`. */
  function EnumListFilter(field: string, e: EnumType, values: seq<int>): Option<Pred> {
    var codes := DefinedCodes(e, values);
    if |codes| == 0 then None else Some(OrAll(EqEach(field, codes)))
  }

  /** A list of codes selects the records whose field holds one of its
      defined codes; undefined codes are dropped, and a list with no defined
      code constrains nothing. */
  lemma EnumListMeaning(field: string, e: EnumType, values: seq<int>, r: Record)
    ensures EnumListFilter(field, e, values).None? <==> forall c :: c in values ==> !IsDefined(e, c)
    ensures EnumListFilter(field, e, values).Some? ==>
              (Eval(EnumListFilter(field, e, values).value, r) <==>
                 Field(r, field).VEnum? && Field(r, field).code in values && IsDefined(e, Field(r, field).code))
  {
    var codes := DefinedCodes(e, values);
    if |codes| > 0 {
      assert codes[0] in codes;
      var ps := EqEach(field, codes);
      EvalOrAll(ps, r);
      if Eval(OrAll(ps), r) {
        var k :| 0 <= k < |ps| && Eval(ps[k], r);
        assert codes[k] in codes;
      }
      var v := Field(r, field);
      if v.VEnum? && v.code in values && IsDefined(e, v.code) {
        assert v.code in codes;
        var k :| 0 <= k < |codes| && codes[k] == v.code;
        assert Eval(ps[k], r);
      }
    }
  }

  /** `HandleEnumEnumerableSearch`. */
  method HandleEnumEnumerableSearch(field: string, e: EnumType, valuesList: seq<int>) returns (p: Option<Pred>)
    ensures p == EnumListFilter(field, e, valuesList)
  {
    var enumValues := DefinedCodes(e, valuesList);
    if |enumValues| == 0 {
      return None;
    }
    if |enumValues| == 1 {
      return Some(Eq(field, VEnum(enumValues[0])));
    }
    var combined: Option<Pred> := None;
    for i := 0 to |enumValues|
      invariant combined == if i == 0 then None else Some(OrAll(EqEach(field, enumValues[..i])))
    {
      var equalityExpression := Eq(field, VEnum(enumValues[i]));
      assert EqEach(field, enumValues[..i + 1]) == EqEach(field, enumValues[..i]) + [equalityExpression];
      combined := if combined.None? then Some(equalityExpression) else Some(Or(combined.value, equalityExpression));
    }
    assert enumValues[..|enumValues|] == enumValues;
    p := combined;
  }

  /** `HandleEnumSearch` can run without an exception: the value is not C#
      null (`ToString()`), and every number in an array is an `int`. */
  predicate EnumAdmissible(raw: Raw) {
    raw != Null && (IsJsonArray(raw) ==> NumbersAreInt32(raw.j.items))
  }

  /** Specification of `HandleEnumSearch`. */
  function EnumFilter(field: string, e: EnumType, raw: Raw): Option<Pred>
    requires EnumAdmissible(raw)
  {
    if IsJsonArray(raw) then
      var valuesList := NumberCodes(raw.j.items);
      if |valuesList| > 0 then EnumListFilter(field, e, valuesList) else None
    else
      match ParseEnum(e, RawText(raw))
      case Some(code) => Some(Eq(field, VEnum(code)))
      case None => None
  }

  /** A JSON array of codes selects the records whose field holds a defined
      code that one of its numeric entries spells. */
  lemma EnumArrayMeaning(field: string, e: EnumType, items: seq<Json>, r: Record)
    requires NumbersAreInt32(items)
    ensures EnumFilter(field, e, Element(JArray(items))).None? <==>
              forall i :: 0 <= i < |items| && items[i].JNumber? ==> !IsDefined(e, ParseInt32(items[i].text).value)
    ensures EnumFilter(field, e, Element(JArray(items))).Some? ==>
              (Eval(EnumFilter(field, e, Element(JArray(items))).value, r) <==>
                 Field(r, field).VEnum? && IsDefined(e, Field(r, field).code)
                 && exists i :: 0 <= i < |items| && items[i].JNumber?
                                && ParseInt32(items[i].text).value == Field(r, field).code)
  {
    var values := NumberCodes(items);
    EnumListMeaning(field, e, values, r);
    forall i | 0 <= i < |items| && items[i].JNumber?
      ensures ParseInt32(items[i].text).value as int in values
    {
    }
    if |values| > 0 {
      assert values[0] in values;
    }
  }

  /** A native `int` (or any text spelling an `int`) selects that code by
      equality, whether or not the enum defines it. */
  lemma EnumNativeIntMeaning(field: string, e: EnumType, i: Int32)
    ensures EnumFilter(field, e, NativeInt(i)) == Some(Eq(field, VEnum(i)))
  {
    EnumScalarMeaning(field, e, NativeInt(i));
    assert RawText(NativeInt(i)) == IntText(i);
    ParseEnumIntText(e, i);
  }

  /** Any value other than a JSON array is parsed by name or number into
      one equality, without checking the enum's defined codes; a value that
      does not parse gives no constraint. */
  lemma EnumScalarMeaning(field: string, e: EnumType, raw: Raw)
    requires EnumAdmissible(raw) && !IsJsonArray(raw)
    ensures EnumFilter(field, e, raw) ==
              if ParseEnum(e, RawText(raw)).Some? then Some(Eq(field, VEnum(ParseEnum(e, RawText(raw)).value)))
              else None
  {
  }

  /** A JSON number, the form an HTTP request delivers, selects its code
      when it is an `int` literal, whether or not the enum defines it, and
      gives no constraint when it is not. */
  lemma EnumJsonNumberMeaning(field: string, e: EnumType, text: string, value: real)
    ensures ParseInt32(text).Some? ==>
              EnumFilter(field, e, Element(JNumber(text, value))) == Some(Eq(field, VEnum(ParseInt32(text).value)))
    ensures LooksNumeric(text) && ParseInt32(TrimNumberEnd(text)).None? ==>
              EnumFilter(field, e, Element(JNumber(text, value))) == None
  {
    EnumScalarMeaning(field, e, Element(JNumber(text, value)));
    assert RawText(Element(JNumber(text, value))) == text;
    if LooksNumeric(text) && ParseInt32(TrimNumberEnd(text)).None? {
      ParseEnumNumericFailure(e, text);
    }
    if ParseInt32(text).Some? {
      ParseEnumInt32Text(e, text);
    }
  }

  /** The name of a member selects that member's code. */
  lemma EnumNameMeaning(field: string, e: EnumType, k: nat)
    requires k < |e.members|
    requires |e.members[k].name| > 0 && !IsDigit(e.members[k].name[0])
    requires e.members[k].name[0] != '-' && e.members[k].name[0] != '+'
    requires !IsWhiteSpace(e.members[k].name[0]) && !IsWhiteSpace(e.members[k].name[|e.members[k].name| - 1])
    requires forall j :: 0 <= j < |e.members| && j != k ==> e.members[j].name != e.members[k].name
    ensures EnumFilter(field, e, Element(JString(e.members[k].name))) == Some(Eq(field, VEnum(e.members[k].code)))
    ensures EnumFilter(field, e, NativeString(e.members[k].name)) == Some(Eq(field, VEnum(e.members[k].code)))
  {
    var m := e.members[k];
    ParseEnumMemberName(e, k);
    EnumScalarMeaning(field, e, Element(JString(m.name)));
    EnumScalarMeaning(field, e, NativeString(m.name));
  }

  /** `HandleEnumSearch`. */
  method HandleEnumSearch(field: string, e: EnumType, raw: Raw) returns (p: Option<Pred>)
    requires EnumAdmissible(raw)
    ensures p == EnumFilter(field, e, raw)
  {
    if IsJsonArray(raw) {
      var valuesList := NumberCodes(raw.j.items);
      if |valuesList| > 0 {
        p := HandleEnumEnumerableSearch(field, e, valuesList);
        return;
      }
    } else {
      var enumValue := ParseEnum(e, RawText(raw));
      if enumValue.Some? {
        return Some(Eq(field, VEnum(enumValue.value)));
      }
    }
    return None;
  }

  // =====================================================================
  // Numeric properties
  // =====================================================================

  /** Magnitudes from which `float` parsing rounds to infinity:
      2^128 - 2^103, halfway between the largest `float` and 2^128. */
  const FloatOverflow: int := 340282356779733661637539395458142568448

  /** Magnitudes from which `double` parsing rounds to infinity:
      2^1024 - 2^970, halfway between the largest `double` and 2^1024. */
  const DoubleOverflow: int := 179769313486231580793728971405303415079934132710037826936173778980444968292764750946649017977587207096330286416692887910946555547851940402630657488671505820681908902000708383676273854845817711531764475730270069855571366959622842914819860834936475292719074168444365510704342711559699508093042880177904174497792

  /** `decimal.MaxValue`, 2^96 - 1. */
  const DecimalMax: int := 79228162514264337593543950335

  /** `HandleNumericSearch` can run without an exception: `GetInt32` and
      `GetInt64` get integer text of their width, `GetSingle` and
      `GetDouble` get a number that does not round to infinity, `GetDecimal`
      gets one within the `decimal` range, and a native `int` is only
      compared with a property of type `int` (`Expression.Equal` refuses any
      other operand type). */
  predicate NumericAdmissible(prop: Property, raw: Raw) {
    && (raw.Element? && raw.j.JNumber? && prop.clr == IntType ==> ParseInt32(raw.j.text).Some?)
    && (raw.Element? && raw.j.JNumber? && prop.clr == LongType ==> ParseInt64(raw.j.text).Some?)
    && (raw.Element? && raw.j.JNumber? && prop.clr == FloatType ==>
          -(FloatOverflow as real) < raw.j.value < FloatOverflow as real)
    && (raw.Element? && raw.j.JNumber? && prop.clr == DoubleType ==>
          -(DoubleOverflow as real) < raw.j.value < DoubleOverflow as real)
    && (raw.Element? && raw.j.JNumber? && prop.clr == DecimalType ==>
          -(DecimalMax as real) <= raw.j.value <= DecimalMax as real)
    && (raw.NativeInt? ==> prop.clr == IntType && !prop.nullable)
  }

  /** `HandleNumericSearch`: equality with a JSON number for `int`, `long`,
      `float`, `double` and `decimal` properties, or with a native `int`;
      no constraint for every other value or width. */
  function NumericPredicate(prop: Property, raw: Raw): (p: Option<Pred>)
    requires NumericAdmissible(prop, raw)
    ensures p.Some? <==>
              raw.NativeInt?
              || (raw.Element? && raw.j.JNumber?
                  && prop.clr in {IntType, LongType, FloatType, DoubleType, DecimalType})
    ensures p.Some? ==> p.value.Eq? && p.value.field == prop.name && p.value.value.VNumber?
    ensures raw.NativeInt? ==> p == Some(Eq(prop.name, VNumber(raw.i as real)))
    ensures raw.Element? && raw.j.JNumber? && prop.clr in {IntType, LongType} ==>
              p == Some(Eq(prop.name, VNumber(ParseInteger(raw.j.text).value as real)))
  {
    match raw
    case Element(JNumber(text, value)) =>
      (match prop.clr
       case IntType => Some(Eq(prop.name, VNumber(ParseInt32(text).value as real)))
       case LongType => Some(Eq(prop.name, VNumber(ParseInt64(text).value as real)))
       case FloatType => Some(Eq(prop.name, VNumber(value)))
       case DoubleType => Some(Eq(prop.name, VNumber(value)))
       case DecimalType => Some(Eq(prop.name, VNumber(value)))
       case _ => None)
    case NativeInt(i) => Some(Eq(prop.name, VNumber(i as real)))
    case _ => None
  }

  /** An integer literal whose value agrees with its text is compared by
      the same number whichever numeric width the property has. */
  lemma NumericWidthsAgree(prop: Property, text: string, value: real)
    requires NumberAgrees(JNumber(text, value)) && ParseInt32(text).Some?
    requires prop.clr in {IntType, LongType, FloatType, DoubleType, DecimalType}
    ensures NumericAdmissible(prop, Element(JNumber(text, value)))
    ensures NumericPredicate(prop, Element(JNumber(text, value))) == Some(Eq(prop.name, VNumber(value)))
  {
  }

  // =====================================================================
  // Dispatch on the property's type
  // =====================================================================

  /** The value can be handled for this property without an exception. */
  predicate FieldAdmissible(prop: Property, raw: Raw, parse: DateParser) {
    match prop.clr
    case DateTimeType => DateAdmissible(prop, raw, parse)
    case EnumOf(_) => EnumAdmissible(raw)
    case _ => IsNumericType(prop.clr) ==> NumericAdmissible(prop, raw)
  }

  /** Specification of `HandleOtherTypesSearch`. */
  function OtherTypesPredicate(prop: Property, raw: Raw, parse: DateParser): Option<Pred>
    requires FieldAdmissible(prop, raw, parse)
  {
    if prop.clr == StringType then StringFilter(prop.name, raw)
    else if prop.clr.EnumOf? then EnumFilter(prop.name, prop.clr.enum, raw)
    else if IsNumericType(prop.clr) then NumericPredicate(prop, raw)
    else if prop.clr == DateTimeType then DateTimePredicate(prop, raw, parse)
    else None
  }

  /** `HandleOtherTypesSearch`. */
  method HandleOtherTypesSearch(prop: Property, raw: Raw, parse: DateParser) returns (p: Option<Pred>)
    requires FieldAdmissible(prop, raw, parse)
    ensures p == OtherTypesPredicate(prop, raw, parse)
  {
    if prop.clr == StringType {
      p := HandleStringSearch(prop.name, raw);
    } else if prop.clr.EnumOf? {
      p := HandleEnumSearch(prop.name, prop.clr.enum, raw);
    } else if IsNumericType(prop.clr) {
      p := NumericPredicate(prop, raw);
    } else if prop.clr == DateTimeType {
      p := DateTimePredicate(prop, raw, parse);
    } else {
      p := None;
    }
  }

  /** The predicate `ApplySearchCriteria` builds for one resolved property:
      `HandleDateTimeSearch` for `DateTime`, `HandleOtherTypesSearch` for the
      rest. */
  function FieldPredicate(prop: Property, raw: Raw, parse: DateParser): (p: Option<Pred>)
    requires FieldAdmissible(prop, raw, parse)
    ensures prop.clr.BoolType? || prop.clr.ClassType? ==> p.None?
    ensures raw == Null && !prop.clr.EnumOf? ==> p.None?
    ensures prop.clr == DateTimeType && !prop.nullable ==> p.None?
  {
    if prop.clr == DateTimeType then DateTimePredicate(prop, raw, parse)
    else OtherTypesPredicate(prop, raw, parse)
  }

  /** An enum property is filtered by `HandleEnumSearch` alone. */
  lemma EnumFieldPredicate(prop: Property, raw: Raw, parse: DateParser)
    requires prop.clr.EnumOf? && EnumAdmissible(raw)
    ensures FieldAdmissible(prop, raw, parse)
    ensures FieldPredicate(prop, raw, parse) == EnumFilter(prop.name, prop.clr.enum, raw)
  {
  }
}
