/** `DataValidator`: the checks and clean-up applied to one transaction
    record before the engine sees it. A record is a map from field names to
    scalars; a key that is absent is not in the map. */
module DataValidator {
  import opened Wrappers
  import opened Values
  import opened Numerals

  const RequiredFields: seq<string> := [
    "transaction_id",
    "transaction_amount",
    "transaction_velocity_24h",
    "merchant_category",
    "is_new_device",
    "country_mismatch"
  ]

  const OptionalFields: seq<string> := [
    "account_age_days",
    "account_country",
    "transaction_country",
    "timestamp"
  ]

  const MerchantCategories: seq<string> := ["retail", "travel", "gambling", "crypto", "electronics"]

  /** `self.all_fields`. */
  const AllFields: seq<string> := RequiredFields + OptionalFields

  /** The strings a boolean field reads as true after lower-casing. */
  const TrueWords: seq<string> := ["true", "1", "yes", "t"]

  /** One problem `validate_transaction` reports. */
  datatype TxIssue =
    | MissingRequired(field: string)
    | AmountNotNumeric
    | AmountNegative
    | VelocityNotInteger
    | VelocityNegative
    | InvalidMerchantCategory
    | NewDeviceNotBoolean
    | CountryMismatchNotBoolean
    | AccountAgeNotInteger
    | AccountAgeNegative

  // ---------------------------------------------------------------------
  // validate_transaction

  /** One error per absent field of `fields`, in their order. */
  function MissingIssues(fields: seq<string>, data: Record): (r: seq<TxIssue>)
    ensures forall e :: e in r ==> e.MissingRequired?
    ensures forall f :: MissingRequired(f) in r <==> f in fields && f !in data
    decreases |fields|
  {
    if |fields| == 0 then []
    else
      assert forall f :: f in fields <==> f == fields[0] || f in fields[1..];
      (if fields[0] in data then [] else [MissingRequired(fields[0])]) + MissingIssues(fields[1..], data)
  }

  /** A field that must be a number (`int` or `float`) and not negative; a
      type error suppresses the range check. */
  function NumberIssues(data: Record, field: string, notNumber: TxIssue, negative: TxIssue): (r: seq<TxIssue>)
    requires notNumber != negative
    ensures forall e :: e in r ==> e == notNumber || e == negative
    ensures notNumber in r <==> NotNumberAt(data, field)
    ensures (negative in r <==> NegativeNumberAt(data, field))
  {
    if field !in data then []
    else if !IsNumber(data[field]) then [notNumber]
    else if NumericValue(data[field]) < 0.0 then [negative]
    else []
  }

  /** A field that must be an `int` (a `bool` passes) and not negative. */
  function IntegerIssues(data: Record, field: string, notInteger: TxIssue, negative: TxIssue): (r: seq<TxIssue>)
    requires notInteger != negative
    ensures forall e :: e in r ==> e == notInteger || e == negative
    ensures notInteger in r <==> NotIntegerAt(data, field)
    ensures (negative in r <==> NegativeIntegerAt(data, field))
  {
    if field !in data then []
    else if !IsInteger(data[field]) then [notInteger]
    else if NumericValue(data[field]) < 0.0 then [negative]
    else []
  }

  /** A field that must be a `bool`. */
  function BooleanIssues(data: Record, field: string, notBoolean: TxIssue): (r: seq<TxIssue>)
    ensures forall e :: e in r ==> e == notBoolean
    ensures notBoolean in r <==> NotBooleanAt(data, field)
  {
    if field in data && !data[field].Bool? then [notBoolean] else []
  }

  /** `value in MERCHANT_CATEGORIES`: only a string can equal a listed name. */
  predicate KnownCategory(v: Scalar) {
    v.Str? && v.s in MerchantCategories
  }

  function CategoryIssues(data: Record): (r: seq<TxIssue>)
    ensures forall e :: e in r ==> e == InvalidMerchantCategory
  {
    if "merchant_category" in data && !KnownCategory(data["merchant_category"]) then [InvalidMerchantCategory] else []
  }

  /** The type and range problems, in the order the checks run. */
  function ValueIssues(data: Record): seq<TxIssue> {
    NumberIssues(data, "transaction_amount", AmountNotNumeric, AmountNegative)
    + (IntegerIssues(data, "transaction_velocity_24h", VelocityNotInteger, VelocityNegative)
    + (CategoryIssues(data)
    + (BooleanIssues(data, "is_new_device", NewDeviceNotBoolean)
    + (BooleanIssues(data, "country_mismatch", CountryMismatchNotBoolean)
    + IntegerIssues(data, "account_age_days", AccountAgeNotInteger, AccountAgeNegative)))))
  }

  /** The six checks' contributions, each one in turn. */
  lemma ValueIssuesParts(data: Record)
    ensures var a := NumberIssues(data, "transaction_amount", AmountNotNumeric, AmountNegative);
      var v := IntegerIssues(data, "transaction_velocity_24h", VelocityNotInteger, VelocityNegative);
      var m := CategoryIssues(data);
      var d := BooleanIssues(data, "is_new_device", NewDeviceNotBoolean);
      var c := BooleanIssues(data, "country_mismatch", CountryMismatchNotBoolean);
      var g := IntegerIssues(data, "account_age_days", AccountAgeNotInteger, AccountAgeNegative);
      && (forall e :: e in ValueIssues(data) <==> e in a || e in v || e in m || e in d || e in c || e in g)
      && (ValueIssues(data) == [] <==> a == [] && v == [] && m == [] && d == [] && c == [] && g == [])
  {
  }

  /** `validate_transaction`: the missing required fields in their order,
      then the type and range problems. */
  function ValidateTransaction(data: Record): (r: seq<TxIssue>)
    ensures forall i :: 0 <= i < |r| ==> (r[i].MissingRequired? <==> i < |MissingIssues(RequiredFields, data)|)
  {
    var missing := MissingIssues(RequiredFields, data);
    var values := ValueIssues(data);
    MissingOnlyAt(RequiredFields, data);
    NoMissingAt(data);
    MissingFirst(missing, values);
    missing + values
  }

  /** Every entry of the missing-field list is a missing-field error. */
  lemma MissingOnlyAt(fields: seq<string>, data: Record)
    ensures var m := MissingIssues(fields, data);
      forall i :: 0 <= i < |m| ==> m[i].MissingRequired?
  {
    var m := MissingIssues(fields, data);
    assert forall i :: 0 <= i < |m| ==> m[i] in m;
  }

  /** No entry of the type and range list is a missing-field error. */
  lemma NoMissingAt(data: Record)
    ensures var v := ValueIssues(data);
      forall i :: 0 <= i < |v| ==> !v[i].MissingRequired?
  {
    var v := ValueIssues(data);
    NoMissingInValues(data);
    assert forall i :: 0 <= i < |v| ==> v[i] in v;
  }

  /** Missing-field errors followed by other errors: an entry is a
      missing-field error exactly when it lies in the first part. */
  lemma MissingFirst(missing: seq<TxIssue>, values: seq<TxIssue>)
    requires forall i :: 0 <= i < |missing| ==> missing[i].MissingRequired?
    requires forall i :: 0 <= i < |values| ==> !values[i].MissingRequired?
    ensures forall i :: 0 <= i < |missing + values| ==> ((missing + values)[i].MissingRequired? <==> i < |missing|)
  {
  }

  /** The missing-field errors name exactly the absent required fields. */
  lemma MissingReported(data: Record)
    ensures forall f :: MissingRequired(f) in ValidateTransaction(data) <==> f in RequiredFields && f !in data
  {
    NoMissingInValues(data);
  }

  lemma NoMissingInValues(data: Record)
    ensures forall e :: e in ValueIssues(data) ==> !e.MissingRequired?
  {
    ValueIssuesParts(data);
  }

  /** Apart from the missing-field errors, `validate_transaction` reports
      exactly the type and range problems. */
  lemma ValidateTransactionValues(data: Record)
    ensures forall e: TxIssue :: !e.MissingRequired? ==> (e in ValidateTransaction(data) <==> e in ValueIssues(data))
  {
  }

  /** `field` is present and not an `int` or `float`. */
  predicate NotNumberAt(data: Record, field: string) {
    field in data && !IsNumber(data[field])
  }

  /** `field` is present and not an `int` (nor a `bool`). */
  predicate NotIntegerAt(data: Record, field: string) {
    field in data && !IsInteger(data[field])
  }

  /** `field` is present and not a `bool`. */
  predicate NotBooleanAt(data: Record, field: string) {
    field in data && !data[field].Bool?
  }

  /** `field` is present, a number, and below zero. */
  predicate NegativeNumberAt(data: Record, field: string) {
    field in data && IsNumber(data[field]) && NumericValue(data[field]) < 0.0
  }

  /** `field` is present, an integer, and below zero. */
  predicate NegativeIntegerAt(data: Record, field: string) {
    field in data && IsInteger(data[field]) && NumericValue(data[field]) < 0.0
  }

  /** The amount check flags a non-number, or else a negative number. */
  lemma AmountChecked(data: Record)
    ensures AmountNotNumeric in ValueIssues(data) <==> NotNumberAt(data, "transaction_amount")
    ensures AmountNegative in ValueIssues(data) <==> NegativeNumberAt(data, "transaction_amount")
  {
    ValueIssuesParts(data);
  }

  /** The velocity check flags a non-integer, or else a negative integer. */
  lemma VelocityChecked(data: Record)
    ensures VelocityNotInteger in ValueIssues(data) <==> NotIntegerAt(data, "transaction_velocity_24h")
    ensures VelocityNegative in ValueIssues(data) <==> NegativeIntegerAt(data, "transaction_velocity_24h")
  {
    ValueIssuesParts(data);
  }

  /** The category check flags a value that is not a listed name. */
  lemma CategoryChecked(data: Record)
    ensures InvalidMerchantCategory in ValueIssues(data)
      <==> "merchant_category" in data && !KnownCategory(data["merchant_category"])
  {
    ValueIssuesParts(data);
  }

  /** The two flag checks flag a value that is not a `bool`. */
  lemma FlagsChecked(data: Record)
    ensures NewDeviceNotBoolean in ValueIssues(data) <==> NotBooleanAt(data, "is_new_device")
    ensures CountryMismatchNotBoolean in ValueIssues(data) <==> NotBooleanAt(data, "country_mismatch")
  {
    ValueIssuesParts(data);
  }

  /** The account-age check flags a non-integer, or else a negative integer. */
  lemma AccountAgeChecked(data: Record)
    ensures AccountAgeNotInteger in ValueIssues(data) <==> NotIntegerAt(data, "account_age_days")
    ensures AccountAgeNegative in ValueIssues(data) <==> NegativeIntegerAt(data, "account_age_days")
  {
    ValueIssuesParts(data);
  }

  /** What `validate_transaction` reports about each present field: a type
      error, or else a range error, never both. */
  lemma ValueIssuesReported(data: Record)
    ensures var r := ValidateTransaction(data);
      && (AmountNotNumeric in r <==> NotNumberAt(data, "transaction_amount"))
      && (AmountNegative in r <==> NegativeNumberAt(data, "transaction_amount"))
      && (VelocityNotInteger in r <==> NotIntegerAt(data, "transaction_velocity_24h"))
      && (VelocityNegative in r <==> NegativeIntegerAt(data, "transaction_velocity_24h"))
      && (InvalidMerchantCategory in r <==> "merchant_category" in data && !KnownCategory(data["merchant_category"]))
      && (NewDeviceNotBoolean in r <==> NotBooleanAt(data, "is_new_device"))
      && (CountryMismatchNotBoolean in r <==> NotBooleanAt(data, "country_mismatch"))
      && (AccountAgeNotInteger in r <==> NotIntegerAt(data, "account_age_days"))
      && (AccountAgeNegative in r <==> NegativeIntegerAt(data, "account_age_days"))
  {
    ValidateTransactionValues(data);
    AmountChecked(data);
    VelocityChecked(data);
    CategoryChecked(data);
    FlagsChecked(data);
    AccountAgeChecked(data);
  }

  /** A present field passes as a non-negative number. */
  predicate NonNegativeNumber(data: Record, field: string) {
    field in data ==> IsNumber(data[field]) && NumericValue(data[field]) >= 0.0
  }

  /** A present field passes as a non-negative integer. */
  predicate NonNegativeInteger(data: Record, field: string) {
    field in data ==> IsInteger(data[field]) && NumericValue(data[field]) >= 0.0
  }

  predicate BooleanIfPresent(data: Record, field: string) {
    field in data ==> data[field].Bool?
  }

  /** The present values pass every type and range check. */
  predicate ValidValues(data: Record) {
    && NonNegativeNumber(data, "transaction_amount")
    && NonNegativeInteger(data, "transaction_velocity_24h")
    && ("merchant_category" in data ==> KnownCategory(data["merchant_category"]))
    && BooleanIfPresent(data, "is_new_device")
    && BooleanIfPresent(data, "country_mismatch")
    && NonNegativeInteger(data, "account_age_days")
  }

  /** The records `validate_transaction` accepts, stated field by field. */
  predicate ValidTransaction(data: Record) {
    (forall f :: f in RequiredFields ==> f in data) && ValidValues(data)
  }

  lemma MissingIssuesEmpty(fields: seq<string>, data: Record)
    ensures MissingIssues(fields, data) == [] <==> forall f :: f in fields ==> f in data
  {
    var m := MissingIssues(fields, data);
    if m != [] {
      assert m[0] in m;
    }
  }

  lemma ValueIssuesEmpty(data: Record)
    ensures ValueIssues(data) == [] <==> ValidValues(data)
  {
    ValueIssuesParts(data);
  }

  /** No problem is reported exactly for a valid record. */
  lemma ValidateTransactionAccepts(data: Record)
    ensures ValidateTransaction(data) == [] <==> ValidTransaction(data)
  {
    MissingIssuesEmpty(RequiredFields, data);
    ValueIssuesEmpty(data);
  }

  /** Each required field that is absent is reported exactly once. */
  lemma {:induction false} MissingReportedOnce(fields: seq<string>, data: Record)
    requires forall i, j :: 0 <= i < j < |fields| ==> fields[i] != fields[j]
    ensures forall i, j :: 0 <= i < j < |MissingIssues(fields, data)| ==>
      MissingIssues(fields, data)[i] != MissingIssues(fields, data)[j]
    decreases |fields|
  {
    if |fields| > 0 {
      var tail := fields[1..];
      MissingReportedOnce(tail, data);
      assert fields[0] !in tail by {
        assert forall j :: 0 <= j < |tail| ==> tail[j] == fields[j + 1];
      }
      var rest := MissingIssues(tail, data);
      assert MissingRequired(fields[0]) !in rest;
    }
  }

  // ---------------------------------------------------------------------
  // check_required_fields

  /** `check_required_fields`. */
  function CheckRequiredFields(data: Record): (b: bool)
    ensures b <==> forall f :: f in RequiredFields ==> f in data
  {
    "transaction_id" in data && "transaction_amount" in data && "transaction_velocity_24h" in data
    && "merchant_category" in data && "is_new_device" in data && "country_mismatch" in data
  }

  /** The quick check agrees with `validate_transaction`'s missing-field
      errors. */
  lemma CheckRequiredAgrees(data: Record)
    ensures CheckRequiredFields(data) <==> forall e :: e in ValidateTransaction(data) ==> !e.MissingRequired?
  {
    MissingReported(data);
    var r := ValidateTransaction(data);
    if !CheckRequiredFields(data) {
      var f :| f in RequiredFields && f !in data;
      assert MissingRequired(f) in r;
    }
  }

  // ---------------------------------------------------------------------
  // sanitize_transaction

  /** `int(x)` of a float: truncation toward zero. */
  function Truncate(x: real): (n: int)
    ensures x >= 0.0 ==> n as real <= x < n as real + 1.0
    ensures x < 0.0 ==> n as real - 1.0 < x <= n as real
  {
    if x >= 0.0 then x.Floor else -((-x).Floor)
  }

  /** `float(v)`, or `None` where it raises. Reading a float from text is
      the parameter `parseFloat`. */
  function ToFloat(v: Scalar, parseFloat: string -> Option<real>): (r: Option<Scalar>)
    ensures r.Some? ==> r.value.Float?
    ensures IsNumber(v) ==> r == Some(Float(NumericValue(v)))
  {
    match v
    case Bool(_) => Some(Float(NumericValue(v)))
    case Int(_) => Some(Float(NumericValue(v)))
    case Float(x) => Some(v)
    case Str(s) => (match parseFloat(s) case Some(x) => Some(Float(x)) case None => None)
    case Null => None
  }

  /** `int(v)`, or `None` where it raises. */
  function ToInt(v: Scalar): (r: Option<Scalar>)
    ensures r.Some? ==> r.value.Int?
    ensures v.Int? ==> r == Some(v)
    ensures v.Null? ==> r.None?
  {
    match v
    case Bool(b) => Some(Int(if b then 1 else 0))
    case Int(_) => Some(v)
    case Float(x) => Some(Int(Truncate(x)))
    case Str(s) => (match ParseInt(s) case Some(n) => Some(Int(n)) case None => None)
    case Null => None
  }

  /** `val.lower() in ['true', '1', 'yes', 't']` for strings, `bool(val)`
      for numbers, anything else unchanged. */
  function NormaliseBool(v: Scalar): (r: Scalar)
    ensures v.Str? || IsNumber(v) ==> r.Bool?
    ensures !(v.Str? || IsNumber(v)) ==> r == v
    ensures v.Bool? ==> r == v
    ensures IsNumber(v) ==> (r.Bool? && (r.b <==> NumericValue(v) != 0.0))
  {
    match v
    case Str(s) => Bool(Lower(s) in TrueWords)
    case Bool(_) => v
    case Int(i) => Bool(i != 0)
    case Float(x) => Bool(x != 0.0)
    case Null => v
  }

  /** The value `sanitize_transaction` stores for a known field: the
      conversion attempt for that field, or the value unchanged where the
      conversion raises. */
  function SanitizeValue(field: string, v: Scalar, parseFloat: string -> Option<real>): (r: Scalar)
    ensures field !in ConvertedFields ==> r == v
    ensures field == "transaction_amount" ==> r.Float? || r == v
    ensures field == "transaction_amount" && IsNumber(v) ==> r == Float(NumericValue(v))
    ensures field in CountFields ==> r.Int? || r == v
    ensures field in CountFields && v.Int? ==> r == v
    ensures field in FlagFields ==> (r.Bool? <==> v.Str? || IsNumber(v) || v.Bool?)
  {
    if field == "transaction_amount" then ToFloat(v, parseFloat).GetOr(v)
    else if field == "transaction_velocity_24h" || field == "account_age_days" then ToInt(v).GetOr(v)
    else if field == "is_new_device" || field == "country_mismatch" then NormaliseBool(v)
    else v
  }

  /** `sanitize_transaction`: only known fields survive, and each is
      converted as above. */
  function Sanitize(data: Record, parseFloat: string -> Option<real>): (r: Record)
    ensures forall k :: k in r <==> k in data && k in AllFields
    ensures forall k :: k in r && k !in ConvertedFields ==> r[k] == data[k]
  {
    map k | k in data && k in AllFields :: SanitizeValue(k, data[k], parseFloat)
  }

  /** The fields `sanitize_transaction` converts. */
  const ConvertedFields: set<string> :=
    {"transaction_amount", "transaction_velocity_24h", "account_age_days", "is_new_device", "country_mismatch"}

  /** The fields converted with `int()`. */
  const CountFields: set<string> := {"transaction_velocity_24h", "account_age_days"}

  /** The fields normalised to booleans. */
  const FlagFields: set<string> := {"is_new_device", "country_mismatch"}

  /** A second pass changes nothing. */
  lemma SanitizeIdempotent(data: Record, parseFloat: string -> Option<real>)
    ensures Sanitize(Sanitize(data, parseFloat), parseFloat) == Sanitize(data, parseFloat)
  {
    var once := Sanitize(data, parseFloat);
    var twice := Sanitize(once, parseFloat);
    forall k | k in once
      ensures twice[k] == once[k]
    {
      SanitizeValueStable(k, data[k], parseFloat);
    }
  }

  lemma SanitizeValueStable(field: string, v: Scalar, parseFloat: string -> Option<real>)
    ensures SanitizeValue(field, SanitizeValue(field, v, parseFloat), parseFloat) == SanitizeValue(field, v, parseFloat)
  {
  }

  /** After sanitising, a present boolean field that held a string or a
      number holds a `bool`; a string holds `True` exactly when it is one of
      the listed words in some letter case. */
  lemma SanitizeBooleans(data: Record, parseFloat: string -> Option<real>, field: string)
    requires field == "is_new_device" || field == "country_mismatch"
    requires field in data
    ensures var v := data[field];
      var r := Sanitize(data, parseFloat);
      && field in r
      && (v.Str? || IsNumber(v) ==> r[field].Bool?)
      && (v.Str? ==> (r[field].b <==> Lower(v.s) in TrueWords))
      && (IsNumber(v) ==> (r[field].b <==> NumericValue(v) != 0.0))
  {
    assert field in AllFields;
  }

  /** After sanitising, a present count field that `int()` accepts holds an
      integer and passes the integer type check. */
  lemma SanitizeCounts(data: Record, parseFloat: string -> Option<real>, field: string)
    requires field == "transaction_velocity_24h" || field == "account_age_days"
    requires field in data && ToInt(data[field]).Some?
    ensures var r := Sanitize(data, parseFloat);
      field in r && r[field] == ToInt(data[field]).value && IsInteger(r[field])
  {
    assert field in AllFields;
  }

  // ---------------------------------------------------------------------
  // get_field_info

  datatype FieldKind = StringField | NumberField | IntegerField | BooleanField

  datatype FieldInfo = FieldInfo(kind: FieldKind, description: string, required: bool, validation: Option<string>)

  /** `get_field_info`. */
  function FieldInfoTable(): map<string, FieldInfo> {
    map[
      "transaction_id" := FieldInfo(StringField, "Unique transaction identifier", true, None),
      "transaction_amount" := FieldInfo(NumberField, "Transaction amount in dollars", true, Some("Must be >= 0")),
      "transaction_velocity_24h" := FieldInfo(IntegerField, "Number of transactions in last 24 hours", true, Some("Must be >= 0")),
      "merchant_category" := FieldInfo(StringField, "Type of merchant", true,
        Some("Must be one of: retail, travel, gambling, crypto, electronics")),
      "is_new_device" := FieldInfo(BooleanField, "Transaction from unrecognized device", true, None),
      "country_mismatch" := FieldInfo(BooleanField, "Transaction country differs from account country", true, None),
      "account_age_days" := FieldInfo(IntegerField, "Age of account in days", false, Some("Must be >= 0")),
      "account_country" := FieldInfo(StringField, "Account registration country", false, None),
      "transaction_country" := FieldInfo(StringField, "Transaction origin country", false, None),
      "timestamp" := FieldInfo(StringField, "Transaction timestamp (ISO format)", false, None)
    ]
  }

  /** The table describes exactly the known fields, and marks exactly the
      required ones as required. */
  lemma FieldInfoMatchesFields()
    ensures forall f :: f in FieldInfoTable() <==> f in AllFields
    ensures forall f :: f in FieldInfoTable() ==> (FieldInfoTable()[f].required <==> f in RequiredFields)
  {
  }
}
