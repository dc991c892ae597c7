/** The field registry that replaces reflection: each record type is described
    by the list of its public properties (name, declared CLR type,
    nullability), in declaration order. Property lookup by name and the
    numeric-type test live here, together with the ExternalPatron schema and
    its two enums. */
module Schema {
  import opened Text

  datatype EnumMember = EnumMember(name: string, code: int)

  /** A C# enum: its named members in declaration order. */
  datatype EnumType = EnumType(members: seq<EnumMember>)

  /** The declared CLR type of a property (with `Nullable<>` stripped). */
  datatype ClrType =
    | StringType
    | DateTimeType
    | EnumOf(enum: EnumType)
    | IntType | LongType | FloatType | DoubleType | DecimalType
    | ByteType | SByteType | ShortType | UShortType | UIntType | ULongType
    | BoolType
    | ClassType(className: string)

  datatype Property = Property(name: string, clr: ClrType, nullable: bool)

  type Schema = seq<Property>

  // ---------------------------------------------------------------------
  // Property lookup
  // ---------------------------------------------------------------------

  /** `typeof(T).GetProperties().FirstOrDefault(p => string.Equals(p.Name,
      name, StringComparison.OrdinalIgnoreCase))`. */
  function Resolve(schema: Schema, name: string): (r: Option<Property>)
    ensures r.None? <==> forall k :: 0 <= k < |schema| ==> !EqualsIgnoreCase(schema[k].name, name)
    ensures r.Some? ==> exists k :: 0 <= k < |schema| && schema[k] == r.value
                                     && EqualsIgnoreCase(schema[k].name, name)
                                     && forall j :: 0 <= j < k ==> !EqualsIgnoreCase(schema[j].name, name)
  {
    if |schema| == 0 then None
    else if EqualsIgnoreCase(schema[0].name, name) then Some(schema[0])
    else
      var r := Resolve(schema[1..], name);
      assert r.Some? ==> exists k :: 0 <= k < |schema[1..]| && schema[1..][k] == r.value
                                     && EqualsIgnoreCase(schema[1..][k].name, name)
                                     && forall j :: 0 <= j < k ==> !EqualsIgnoreCase(schema[1..][j].name, name);
      if r.Some? then
        var k :| 0 <= k < |schema[1..]| && schema[1..][k] == r.value
                 && EqualsIgnoreCase(schema[1..][k].name, name)
                 && forall j :: 0 <= j < k ==> !EqualsIgnoreCase(schema[1..][j].name, name);
        assert forall j :: 0 <= j < k + 1 ==> !EqualsIgnoreCase(schema[j].name, name) by {
          forall j | 0 <= j < k + 1 ensures !EqualsIgnoreCase(schema[j].name, name) {
            if j > 0 { assert schema[j] == schema[1..][j - 1]; }
          }
        }
        r
      else
        r
  }

  /** Lookup does not depend on the letter case of the requested name. */
  lemma {:induction false} ResolveIgnoresCase(schema: Schema, a: string, b: string)
    requires EqualsIgnoreCase(a, b)
    ensures Resolve(schema, a) == Resolve(schema, b)
  {
    if |schema| > 0 {
      ResolveIgnoresCase(schema[1..], a, b);
    }
  }

  // ---------------------------------------------------------------------
  // Type classification
  // ---------------------------------------------------------------------

  /** The eleven integer and real types the engine treats as numeric: every
      type but strings, dates, enums, booleans and classes. */
  predicate IsNumericType(t: ClrType)
    ensures IsNumericType(t) <==> !(t == StringType || t == DateTimeType || t == BoolType || t.EnumOf? || t.ClassType?)
  {
    || t == IntType || t == DoubleType || t == FloatType || t == DecimalType
    || t == ByteType || t == SByteType || t == ShortType || t == UShortType
    || t == UIntType || t == LongType || t == ULongType
  }

  // ---------------------------------------------------------------------
  // Enums
  // ---------------------------------------------------------------------

  /** `Enum.IsDefined`: some member has this code. */
  predicate IsDefined(e: EnumType, code: int) {
    exists m :: m in e.members && m.code == code
  }

  /** The code of the first member with exactly this name. */
  function LookupName(members: seq<EnumMember>, name: string): (r: Option<int>)
    ensures r.Some? ==> exists m :: m in members && m.name == name && m.code == r.value
    ensures r.None? <==> forall m :: m in members ==> m.name != name
  {
    if |members| == 0 then None
    else if members[0].name == name then Some(members[0].code)
    else LookupName(members[1..], name)
  }

  /** Text that `Enum.TryParse` reads as a number rather than a name. */
  predicate LooksNumeric(text: string) {
    |text| > 0 && (IsDigit(text[0]) || text[0] == '-' || text[0] == '+')
  }

  /** `Enum.TryParse(enumType, text, out value)`, which is case-sensitive.
      Leading white space is skipped. Text that then starts like a number is
      read as an `int` code, defined in the enum or not, and may carry
      trailing white space. Any other text, with its trailing white space
      trimmed too, must be a member name. */
  function ParseEnum(e: EnumType, text: string): (r: Option<int>)
    ensures var v := TrimStart(text);
            LooksNumeric(v) ==>
              (r.Some? <==> ParseInteger(TrimNumberEnd(v)).Some?
                            && MinInt32 <= ParseInteger(TrimNumberEnd(v)).value <= MaxInt32)
    ensures var v := TrimStart(text);
            LooksNumeric(v) && r.Some? ==> r.value == ParseInteger(TrimNumberEnd(v)).value
    ensures var v := TrimStart(text);
            !LooksNumeric(v) ==> (r.None? <==> forall m :: m in e.members ==> m.name != TrimEnd(v))
    ensures var v := TrimStart(text);
            !LooksNumeric(v) && r.Some? ==> exists m :: m in e.members && m.name == TrimEnd(v) && m.code == r.value
  {
    var v := TrimStart(text);
    if LooksNumeric(v) then
      match ParseInt32(TrimNumberEnd(v))
      case Some(n) => Some(n as int)
      case None => None
    else LookupName(e.members, TrimEnd(v))
  }

  /** White space around integer text does not change the code it gives,
      which is the integer when it fits an `int`. */
  lemma NumericEnumTextIgnoresWhiteSpace(e: EnumType, lead: string, digits: string, trail: string)
    requires forall i :: 0 <= i < |lead| ==> IsWhiteSpace(lead[i])
    requires forall i :: 0 <= i < |trail| ==> IsNumberWhite(trail[i])
    requires ParseInteger(digits).Some?
    ensures ParseEnum(e, lead + digits + trail) == ParseEnum(e, digits)
    ensures ParseEnum(e, digits) ==
              if MinInt32 <= ParseInteger(digits).value <= MaxInt32 then Some(ParseInteger(digits).value) else None
  {
    ParseIntegerEnds(digits);
    assert lead + digits + trail == lead + (digits + trail);
    TrimStartAfter(lead, digits + trail);
    TrimStartAfter([], digits);
    assert [] + digits == digits;
    TrimNumberEndBefore(digits, trail);
    TrimNumberEndBefore(digits, []);
    assert digits + [] == digits;
  }

  /** The text of a native `int` gives that code. */
  lemma ParseEnumIntText(e: EnumType, i: Int32)
    ensures ParseEnum(e, IntText(i)) == Some(i as int)
  {
    IntTextRoundTrip(i);
    ParseEnumInt32Text(e, IntText(i));
  }

  /** `int` text gives that code. */
  lemma ParseEnumInt32Text(e: EnumType, text: string)
    requires ParseInt32(text).Some?
    ensures ParseEnum(e, text) == Some(ParseInt32(text).value as int)
  {
    ParseIntegerEnds(text);
    TrimStartNone(text);
    TrimNumberEndNone(text);
  }

  /** The name of a member, spelled by no other member, gives its code. */
  lemma ParseEnumMemberName(e: EnumType, k: nat)
    requires k < |e.members|
    requires |e.members[k].name| > 0 && !LooksNumeric(e.members[k].name)
    requires !IsWhiteSpace(e.members[k].name[0]) && !IsWhiteSpace(e.members[k].name[|e.members[k].name| - 1])
    requires forall j :: 0 <= j < |e.members| && j != k ==> e.members[j].name != e.members[k].name
    ensures ParseEnum(e, e.members[k].name) == Some(e.members[k].code)
  {
    var m := e.members[k];
    TrimStartNone(m.name);
    TrimEndNone(m.name);
    var c := LookupName(e.members, m.name);
    assert m in e.members;
    var m' :| m' in e.members && m'.name == m.name && m'.code == c.value;
  }

  /** Text that starts like a number but is not an `int` gives nothing. */
  lemma ParseEnumNumericFailure(e: EnumType, text: string)
    requires LooksNumeric(text) && ParseInt32(TrimNumberEnd(text)).None?
    ensures ParseEnum(e, text).None?
  {
    TrimStartNone(text);
  }

  /** White space around a member name does not change the code it gives. */
  lemma EnumNameIgnoresWhiteSpace(e: EnumType, lead: string, name: string, trail: string)
    requires forall i :: 0 <= i < |lead| ==> IsWhiteSpace(lead[i])
    requires forall i :: 0 <= i < |trail| ==> IsWhiteSpace(trail[i])
    requires |name| > 0 && !IsWhiteSpace(name[0]) && !IsWhiteSpace(name[|name| - 1]) && !LooksNumeric(name)
    ensures ParseEnum(e, lead + name + trail) == LookupName(e.members, name)
  {
    assert lead + name + trail == lead + (name + trail);
    TrimStartAfter(lead, name + trail);
    TrimEndBefore(name, trail);
  }

  /** `[Flags] enum Status`. */
  const Status: EnumType := EnumType([
    EnumMember("Created", 0),
    EnumMember("PendingApproval", 1),
    EnumMember("Approved", 2),
    EnumMember("Rejected", 4)])

  /** `enum Gender`, members as the tests name them, codes in declaration order. */
  const Gender: EnumType := EnumType([
    EnumMember("Male", 0),
    EnumMember("Female", 1),
    EnumMember("Others", 2)])

  const AspNetUser: ClrType := ClassType("ASPNETUser")

  /** The public properties of `ExternalPatron`, in declaration order. */
  const ExternalPatronSchema: Schema := [
    Property("FormID", IntType, false),
    Property("HighRiskPatronId", IntType, false),
    Property("DocumentID", IntType, false),
    Property("CreatedDate", DateTimeType, false),
    Property("CreatedByID", StringType, true),
    Property("CreatedByUser", AspNetUser, true),
    Property("LastModifiedDate", DateTimeType, true),
    Property("LastModifiedByID", StringType, true),
    Property("LastModifiedByUser", AspNetUser, true),
    Property("SubmittedForApprovalDate", DateTimeType, true),
    Property("SubmittedForApprovalByID", StringType, true),
    Property("SubmittedForApprovalByUser", AspNetUser, true),
    Property("ApprovedDate", DateTimeType, true),
    Property("ApprovedByID", StringType, true),
    Property("ApprovedByUser", AspNetUser, true),
    Property("Description", StringType, true),
    Property("FormStatus", EnumOf(Status), false),
    Property("FirstName", StringType, true),
    Property("LastName", StringType, true),
    Property("FullName", StringType, true),
    Property("Nationality", StringType, true),
    Property("Gender", EnumOf(Gender), true),
    Property("DateOfBirth", DateTimeType, true),
    Property("PassportNumber", StringType, true),
    Property("EmailAddress", StringType, true),
    Property("ContactNumber", StringType, true),
    Property("MailingAddress", StringType, true),
    Property("BillingAddress", StringType, true),
    Property("AverageBetSize", DecimalType, true),
    Property("WinLoseRatio", DecimalType, true),
    Property("FrequencyOfVisitsPerMonth", DecimalType, true),
    Property("SelfExclusionStatus", BoolType, true),
    Property("AdditionalInformation", StringType, true),
    Property("DateJoined", DateTimeType, true)]
}
