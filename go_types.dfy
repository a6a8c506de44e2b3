/** The Go client's request record, its query-parameter builder and its
    validator, which walks the record's fields in declaration order. */
module GoTypes {
  import opened Wrappers
  import opened Text
  import opened Patterns
  import opened Rules

  /** Go's `int` on a 64-bit platform. */
  newtype Int64 = x: int | -0x8000_0000_0000_0000 <= x < 0x8000_0000_0000_0000

  /** The value of one struct field: the record has string and int fields. */
  datatype FieldValue = StringField(s: string) | IntField(n: Int64)

  /** One struct field as reflection sees it: its `json` tag (empty when the
      field has none) and its value. */
  datatype Field = Field(tag: string, value: FieldValue)

  /** Request: two required strings and three optional ints. */
  datatype Request = Request(image: string, outputFormat: string, quality: Int64, maxWidth: Int64, maxHeight: Int64)

  /** The fields of a request in declaration order, with their tags. */
  function Fields(r: Request): seq<Field>
  {
    [Field("image", StringField(r.image)),
     Field("outputFormat", StringField(r.outputFormat)),
     Field("quality,omitempty", IntField(r.quality)),
     Field("maxWidth,omitempty", IntField(r.maxWidth)),
     Field("maxHeight,omitempty", IntField(r.maxHeight))]
  }

  /** reflect.Value.IsZero(). */
  predicate IsZero(v: FieldValue)
  {
    match v
    case StringField(s) => s == ""
    case IntField(n) => n == 0
  }

  /** fmt.Sprintf("%v", field.Interface()). */
  function ValueText(v: FieldValue): string
  {
    match v
    case StringField(s) => s
    case IntField(n) => IntText(n as int)
  }

  /** reflect.Value.String(): the string itself, and "<int Value>" for an
      int field. */
  function ReflectString(v: FieldValue): string
  {
    match v
    case StringField(s) => s
    case IntField(_) => "<int Value>"
  }

  /** The number the numeric branch compares: float64(field.Int()) for an
      int field, and numVal's zero default for any other kind. The
      conversion to float64 rounds, but rounding keeps every comparison
      with a whole bound of magnitude below 2^53 as it was, so the int
      itself is compared. */
  function NumValue(v: FieldValue): int
  {
    match v
    case IntField(n) => n as int
    case StringField(_) => 0
  }

  /** len(s) of a Go string: the number of bytes of its UTF-8 encoding. */
  function Utf8Length(s: string): nat
  {
    if s == [] then 0
    else
      var c := s[0] as int;
      (if c < 0x80 then 1 else if c < 0x800 then 2 else if c < 0x1_0000 then 3 else 4) + Utf8Length(s[1..])
  }

  /** strings.Split(tag, ",")[0]: the name before the first comma. */
  function JsonName(tag: string): string
  {
    Split(tag, ',')[0]
  }

  /** The table Validate declares. A rule without a format has format None,
      Go's empty Format string. */
  function GoRules(): map<string, Rule>
  {
    map[
      "image" := Basic("string", true),
      "outputFormat" := Basic("string", true),
      "quality" := Ranged("integer", 1, 100),
      "maxWidth" := Ranged("integer", 1, 10000),
      "maxHeight" := Ranged("integer", 1, 10000)
    ]
  }

  // ---------------------------------------------------------------------
  // Validate

  /** The type switch: the numeric case compares NumValue with the bounds;
      the string case measures and matches reflect's String() of the field;
      any other type checks nothing. */
  function KindChecks(name: string, rule: Rule, v: FieldValue): seq<Violation>
  {
    if IsNumericType(rule.typeName) then
      var n := NumValue(v);
      (if rule.min.Some? && n < rule.min.value then [BelowMin(name, rule.min.value)] else [])
      + (if rule.max.Some? && n > rule.max.value then [AboveMax(name, rule.max.value)] else [])
    else if rule.typeName == "string" then
      var s := ReflectString(v);
      var len := Utf8Length(s);
      (if rule.minLength.Some? && len < rule.minLength.value then [TooShort(name, rule.minLength.value)] else [])
      + (if rule.maxLength.Some? && len > rule.maxLength.value then [TooLong(name, rule.maxLength.value)] else [])
      + (if rule.format.Some? && FormatMatches(GoRegexp, rule.format.value, s) == Some(false)
         then [BadFormat(name, rule.format.value)] else [])
    else []
  }

  /** The enum check, on the field's `%v` text. */
  function EnumChecks(name: string, rule: Rule, v: FieldValue): seq<Violation>
  {
    if |rule.enumValues| > 0 && ValueText(v) !in rule.enumValues then [NotAllowed(name, rule.enumValues)] else []
  }

  /** What one rule reports about one field: a zero value is missing when
      the rule requires it and absent otherwise. */
  function RuleChecks(name: string, rule: Rule, v: FieldValue): seq<Violation>
  {
    if rule.required && IsZero(v) then [Missing(name)]
    else if IsZero(v) then []
    else KindChecks(name, rule, v) + EnumChecks(name, rule, v)
  }

  /** What one field contributes: nothing without a tag or a rule. */
  function FieldChecks(rules: map<string, Rule>, f: Field): seq<Violation>
  {
    if f.tag == "" then []
    else if JsonName(f.tag) !in rules then []
    else RuleChecks(JsonName(f.tag), rules[JsonName(f.tag)], f.value)
  }

  /** Everything the loop reports, field after field. */
  function FieldViolations(rules: map<string, Rule>, fields: seq<Field>): seq<Violation>
  {
    if fields == [] then []
    else FieldChecks(rules, fields[0]) + FieldViolations(rules, fields[1..])
  }

  /** ValidationError, holding the report texts. */
  datatype ValidationError = ValidationError(errors: seq<string>)
  {
    /** Error(). */
    function Error(): string
    {
      FailureMessage(errors)
    }
  }

  /** The inner enum loop: whether the text is one of the allowed values. */
  method EnumContains(values: seq<string>, text: string) returns (found: bool)
    ensures found <==> text in values
  {
    found := false;
    var j := 0;
    while j < |values| && !found
      invariant 0 <= j <= |values|
      invariant found ==> text in values
      invariant !found ==> text !in values[..j]
    {
      if text == values[j] {
        found := true;
      }
      j := j + 1;
    }
    assert !found ==> values[..j] == values;
  }

  /** The type switch of one iteration. */
  method CheckKind(name: string, rule: Rule, v: FieldValue) returns (found: seq<Violation>)
    ensures found == KindChecks(name, rule, v)
  {
    found := [];
    if IsNumericType(rule.typeName) {
      var numVal := NumValue(v);
      if rule.min.Some? && numVal < rule.min.value {
        found := found + [BelowMin(name, rule.min.value)];
      }
      if rule.max.Some? && numVal > rule.max.value {
        found := found + [AboveMax(name, rule.max.value)];
      }
    } else if rule.typeName == "string" {
      var strVal := ReflectString(v);
      if rule.minLength.Some? && Utf8Length(strVal) < rule.minLength.value {
        found := found + [TooShort(name, rule.minLength.value)];
      }
      if rule.maxLength.Some? && Utf8Length(strVal) > rule.maxLength.value {
        found := found + [TooLong(name, rule.maxLength.value)];
      }
      if rule.format.Some? {
        var matched := FormatMatches(GoRegexp, rule.format.value, strVal);
        if matched == Some(false) {
          found := found + [BadFormat(name, rule.format.value)];
        }
      }
    }
  }

  /** The body of Validate's loop for one field: the reports in the order
      the source appends them. */
  method CheckField(rules: map<string, Rule>, f: Field) returns (found: seq<Violation>)
    ensures found == FieldChecks(rules, f)
  {
    found := [];
    if f.tag == "" {
      return;
    }
    var jsonName := JsonName(f.tag);
    if jsonName !in rules {
      return;
    }
    var rule := rules[jsonName];
    var v := f.value;
    if rule.required && IsZero(v) {
      found := [Missing(jsonName)];
      return;
    }
    if IsZero(v) {
      return;
    }
    found := CheckKind(jsonName, rule, v);
    if |rule.enumValues| > 0 {
      var strVal := ValueText(v);
      var allowed := EnumContains(rule.enumValues, strVal);
      if !allowed {
        found := found + [NotAllowed(jsonName, rule.enumValues)];
      }
    }
  }

  /** One iteration of the loop keeps the reports collected so far a
      prefix of the whole list. */
  lemma CollectStep(rules: map<string, Rule>, fields: seq<Field>, i: nat, errors: seq<Violation>, found: seq<Violation>)
    requires i < |fields|
    requires errors + FieldViolations(rules, fields[i..]) == FieldViolations(rules, fields)
    requires found == FieldChecks(rules, fields[i])
    ensures (errors + found) + FieldViolations(rules, fields[i + 1..]) == FieldViolations(rules, fields)
  {
    FieldViolationsStep(rules, fields, i);
    var tail := FieldViolations(rules, fields[i + 1..]);
    assert (errors + found) + tail == errors + (found + tail);
  }

  lemma FieldViolationsStep(rules: map<string, Rule>, fields: seq<Field>, i: nat)
    requires i < |fields|
    ensures FieldViolations(rules, fields[i..]) == FieldChecks(rules, fields[i]) + FieldViolations(rules, fields[i + 1..])
  {
    assert fields[i..][1..] == fields[i + 1..];
  }

  /** With no rules, no field reports anything. */
  lemma {:induction false} NoRulesNoReports(rules: map<string, Rule>, fields: seq<Field>)
    requires |rules| == 0
    ensures FieldViolations(rules, fields) == []
  {
    if fields != [] {
      NoRulesNoReports(rules, fields[1..]);
      if fields[0].tag != "" {
        assert JsonName(fields[0].tag) !in rules;
      }
    }
  }

  /** Validate's loop over a field list against a rule table: the reports
      in field order, the error holding their texts, and an error exactly
      when there is at least one report. */
  method ValidateFields(rules: map<string, Rule>, fields: seq<Field>) returns (err: Option<ValidationError>)
    ensures err.None? <==> FieldViolations(rules, fields) == []
    ensures err.Some? ==> err.value == ValidationError(Messages(FieldViolations(rules, fields), GoBoundText))
  {
    if |rules| == 0 {
      NoRulesNoReports(rules, fields);
      return None;
    }
    var errors: seq<Violation> := [];
    var i := 0;
    while i < |fields|
      invariant 0 <= i <= |fields|
      invariant errors + FieldViolations(rules, fields[i..]) == FieldViolations(rules, fields)
    {
      var found := CheckField(rules, fields[i]);
      CollectStep(rules, fields, i, errors, found);
      errors := errors + found;
      i := i + 1;
    }
    assert fields[i..] == [];
    assert errors + [] == errors;
    if |errors| > 0 {
      err := Some(ValidationError(Messages(errors, GoBoundText)));
    } else {
      err := None;
    }
  }

  /** Request.Validate(). */
  method Validate(r: Request) returns (err: Option<ValidationError>)
    ensures err.None? <==> FieldViolations(GoRules(), Fields(r)) == []
    ensures err.Some? ==> err.value == ValidationError(Messages(FieldViolations(GoRules(), Fields(r)), GoBoundText))
  {
    err := ValidateFields(GoRules(), Fields(r));
  }

  // ---------------------------------------------------------------------
  // ToQueryParams

  /** Whether the builder writes a field: it has a tag, its name is not
      "-", and its value is not zero. */
  predicate Written(f: Field)
  {
    f.tag != "" && JsonName(f.tag) != "-" && !IsZero(f.value)
  }

  /** The map after the loop has run over `fields`; a later field with the
      same name overwrites an earlier one. */
  function QueryParams(fields: seq<Field>): map<string, string>
  {
    if fields == [] then map[]
    else
      var m := QueryParams(fields[..|fields| - 1]);
      var f := fields[|fields| - 1];
      if Written(f) then m[JsonName(f.tag) := ValueText(f.value)] else m
  }

  /** ToQueryParams's loop over the fields of a record. */
  method WriteFields(fields: seq<Field>) returns (params: map<string, string>)
    ensures params == QueryParams(fields)
  {
    params := map[];
    var i := 0;
    while i < |fields|
      invariant 0 <= i <= |fields|
      invariant params == QueryParams(fields[..i])
    {
      assert fields[..i + 1][..i] == fields[..i];
      var f := fields[i];
      if f.tag != "" {
        var jsonName := JsonName(f.tag);
        if jsonName != "-" && !IsZero(f.value) {
          params := params[jsonName := ValueText(f.value)];
        }
      }
      i := i + 1;
    }
    assert fields[..i] == fields;
  }

  /** Request.ToQueryParams(): an empty map for a nil request. */
  method ToQueryParams(r: Option<Request>) returns (params: map<string, string>)
    ensures r.None? ==> params == map[]
    ensures r.Some? ==> params == QueryParams(Fields(r.value))
  {
    if r.None? {
      return map[];
    }
    params := WriteFields(Fields(r.value));
  }

  /** Field `f` writes key `k`. */
  predicate Writes(f: Field, k: string)
  {
    Written(f) && JsonName(f.tag) == k
  }

  /** A key is in the map exactly when some field writes it. */
  lemma {:induction false} QueryParamsKeys(fields: seq<Field>, k: string)
    ensures k in QueryParams(fields) <==> exists i :: 0 <= i < |fields| && Writes(fields[i], k)
  {
    if fields != [] {
      var n := |fields| - 1;
      QueryParamsKeys(fields[..n], k);
      assert forall i :: 0 <= i < n ==> fields[..n][i] == fields[i];
    }
  }

  /** The value of a key is the text of the last field that writes it. */
  lemma {:induction false} QueryParamsValue(fields: seq<Field>, k: string, i: nat)
    requires i < |fields| && Writes(fields[i], k)
    requires forall j :: i < j < |fields| ==> !Writes(fields[j], k)
    ensures k in QueryParams(fields) && QueryParams(fields)[k] == ValueText(fields[i].value)
  {
    var n := |fields| - 1;
    if i < n {
      var init := fields[..n];
      assert forall j :: 0 <= j < n ==> init[j] == fields[j];
      QueryParamsValue(init, k, i);
      assert !Writes(fields[n], k);
    }
  }
}

/** What Validate and ToQueryParams do with the Request record. The
    facts are proved for any field list shaped like the record's (its
    names, in order, with the record's values) and then for the record. */
module GoFacts {
  import opened Wrappers
  import opened Text
  import opened Patterns
  import opened Rules
  import opened GoTypes

  /** The json names of the record's fields, in declaration order. */
  function FieldNames(): seq<string>
  {
    ["image", "outputFormat", "quality", "maxWidth", "maxHeight"]
  }

  /** A tag is a name without commas, then nothing or options that start
      with a comma: its json name is that name. */
  lemma NamedTag(tag: string, name: string, options: string)
    requires ',' !in name && tag == name + options
    requires options == "" || options[0] == ','
    ensures JsonName(tag) == name
  {
    IndexOfPrefix(name, options, ',');
    assert tag[..|name|] == name;
    if options == "" {
      assert IndexOf(options, ',') == 0;
      assert tag == name;
    }
  }

  /** Field `f` has a tag whose json name is `name`. */
  predicate NameIs(f: Field, name: string)
  {
    f.tag != "" && JsonName(f.tag) == name
  }

  /** `fs` lists fields tagged with the record's names, in order. */
  predicate NamesInOrder(fs: seq<Field>)
  {
    && |fs| == 5
    && NameIs(fs[0], "image") && NameIs(fs[1], "outputFormat") && NameIs(fs[2], "quality")
    && NameIs(fs[3], "maxWidth") && NameIs(fs[4], "maxHeight")
  }

  /** `fs` lists fields named as the record's, in order, holding the values
      of `r`. */
  predicate RequestShape(fs: seq<Field>, r: Request)
  {
    && NamesInOrder(fs)
    && fs[0].value == StringField(r.image)
    && fs[1].value == StringField(r.outputFormat)
    && fs[2].value == IntField(r.quality)
    && fs[3].value == IntField(r.maxWidth)
    && fs[4].value == IntField(r.maxHeight)
  }

  /** The record's own fields have that shape: each tag names its field. */
  lemma FieldsShape(r: Request)
    ensures RequestShape(Fields(r), r)
  {
    ImageTag(r);
    OutputFormatTag(r);
    QualityTag(r);
    MaxWidthTag(r);
    MaxHeightTag(r);
  }

  lemma ImageTag(r: Request)
    ensures NameIs(Fields(r)[0], "image")
  {
    NamedTag(Fields(r)[0].tag, "image", "");
  }

  lemma OutputFormatTag(r: Request)
    ensures NameIs(Fields(r)[1], "outputFormat")
  {
    NamedTag(Fields(r)[1].tag, "outputFormat", "");
  }

  lemma QualityTag(r: Request)
    ensures NameIs(Fields(r)[2], "quality")
  {
    NamedTag(Fields(r)[2].tag, "quality", ",omitempty");
  }

  lemma MaxWidthTag(r: Request)
    ensures NameIs(Fields(r)[3], "maxWidth")
  {
    NamedTag(Fields(r)[3].tag, "maxWidth", ",omitempty");
  }

  lemma MaxHeightTag(r: Request)
    ensures NameIs(Fields(r)[4], "maxHeight")
  {
    NamedTag(Fields(r)[4].tag, "maxHeight", ",omitempty");
  }

  /** The rules `rules` gives the five names, as Validate declares them. */
  predicate GoShape(rules: map<string, Rule>)
  {
    && "image" in rules && rules["image"] == Basic("string", true)
    && "outputFormat" in rules && rules["outputFormat"] == Basic("string", true)
    && "quality" in rules && rules["quality"] == Ranged("integer", 1, 100)
    && "maxWidth" in rules && rules["maxWidth"] == Ranged("integer", 1, 10000)
    && "maxHeight" in rules && rules["maxHeight"] == Ranged("integer", 1, 10000)
  }

  lemma GoRulesShape()
    ensures GoShape(GoRules())
  {
  }

  /** What a required string field reports. */
  function RequiredReport(name: string, s: string): seq<Violation>
  {
    if s == "" then [Missing(name)] else []
  }

  /** What an optional field bounded by [1, hi] reports: nothing for zero,
      which counts as absent; otherwise one report per violated bound. */
  function RangeReport(name: string, n: int, hi: int): seq<Violation>
  {
    if n == 0 then []
    else (if n < 1 then [BelowMin(name, 1)] else []) + (if n > hi then [AboveMax(name, hi)] else [])
  }

  /** The reports for a request, field by field in declaration order. */
  function RequestReports(r: Request): seq<Violation>
  {
    RequiredReport("image", r.image) + (RequiredReport("outputFormat", r.outputFormat)
    + (RangeReport("quality", r.quality as int, 100) + (RangeReport("maxWidth", r.maxWidth as int, 10000)
    + RangeReport("maxHeight", r.maxHeight as int, 10000))))
  }

  lemma RequiredField(rules: map<string, Rule>, f: Field, name: string, s: string)
    requires name in rules && rules[name] == Basic("string", true)
    requires f.tag != "" && JsonName(f.tag) == name && f.value == StringField(s)
    ensures FieldChecks(rules, f) == RequiredReport(name, s)
  {
    if s != "" {
      assert KindChecks(name, rules[name], f.value) == [];
    }
  }

  lemma RangedField(rules: map<string, Rule>, f: Field, name: string, n: Int64, hi: int)
    requires name in rules && rules[name] == Ranged("integer", 1, hi)
    requires f.tag != "" && JsonName(f.tag) == name && f.value == IntField(n)
    ensures FieldChecks(rules, f) == RangeReport(name, n as int, hi)
  {
    assert IsNumericType("integer");
  }

  lemma FiveFields(rules: map<string, Rule>, fs: seq<Field>)
    requires |fs| == 5
    ensures FieldViolations(rules, fs)
            == FieldChecks(rules, fs[0]) + (FieldChecks(rules, fs[1]) + (FieldChecks(rules, fs[2])
               + (FieldChecks(rules, fs[3]) + FieldChecks(rules, fs[4]))))
  {
    FieldViolationsStep(rules, fs, 0);
    FieldViolationsStep(rules, fs, 1);
    FieldViolationsStep(rules, fs, 2);
    FieldViolationsStep(rules, fs, 3);
    FieldViolationsStep(rules, fs, 4);
    assert fs[5..] == [];
    var c4 := FieldChecks(rules, fs[4]);
    assert c4 + [] == c4;
  }

  lemma ShapeViolations(rules: map<string, Rule>, fs: seq<Field>, r: Request)
    requires GoShape(rules) && RequestShape(fs, r)
    ensures FieldViolations(rules, fs) == RequestReports(r)
  {
    FiveFields(rules, fs);
    RequiredField(rules, fs[0], "image", r.image);
    RequiredField(rules, fs[1], "outputFormat", r.outputFormat);
    RangedField(rules, fs[2], "quality", r.quality, 100);
    RangedField(rules, fs[3], "maxWidth", r.maxWidth, 10000);
    RangedField(rules, fs[4], "maxHeight", r.maxHeight, 10000);
  }

  /** Validate reports the fields in declaration order: image,
      outputFormat, quality, maxWidth, maxHeight, each exactly as its rule
      says. */
  lemma RequestViolations(r: Request)
    ensures FieldViolations(GoRules(), Fields(r)) == RequestReports(r)
  {
    GoRulesShape();
    FieldsShape(r);
    ShapeViolations(GoRules(), Fields(r), r);
  }

  /** An optional numeric field passes when it is zero or within its
      bounds, inclusive. */
  predicate InRangeOrZero(n: Int64, hi: int)
  {
    n == 0 || 1 <= n as int <= hi
  }

  /** Validate accepts a request exactly when both strings are non-empty
      and each number is zero or within its bounds. */
  lemma RequestAccepted(r: Request)
    ensures FieldViolations(GoRules(), Fields(r)) == []
            <==> && r.image != "" && r.outputFormat != ""
                 && InRangeOrZero(r.quality, 100)
                 && InRangeOrZero(r.maxWidth, 10000)
                 && InRangeOrZero(r.maxHeight, 10000)
  {
    RequestViolations(r);
  }

  /** A non-zero field is reported against its rule's format exactly when
      the pattern refuses reflect's String() of it. */
  lemma FormatReported(name: string, rule: Rule, v: FieldValue, f: string)
    requires !IsZero(v)
    ensures BadFormat(name, f) in RuleChecks(name, rule, v)
            <==> !IsNumericType(rule.typeName) && rule.typeName == "string" && rule.format == Some(f)
                 && FormatMatches(GoRegexp, f, ReflectString(v)) == Some(false)
  {
    assert RuleChecks(name, rule, v) == KindChecks(name, rule, v) + EnumChecks(name, rule, v);
    if !IsNumericType(rule.typeName) && rule.typeName == "string" {
      var s := ReflectString(v);
      var len := Utf8Length(s);
      var a := if rule.minLength.Some? && len < rule.minLength.value then [TooShort(name, rule.minLength.value)] else [];
      var b := if rule.maxLength.Some? && len > rule.maxLength.value then [TooLong(name, rule.maxLength.value)] else [];
      var c := if rule.format.Some? && FormatMatches(GoRegexp, rule.format.value, s) == Some(false)
               then [BadFormat(name, rule.format.value)] else [];
      assert KindChecks(name, rule, v) == a + b + c;
    }
  }

  /** A non-zero field whose `%v` text is outside a non-empty enum list is
      reported, and every listed text passes. */
  lemma EnumReported(name: string, rule: Rule, v: FieldValue)
    requires !IsZero(v)
    ensures NotAllowed(name, rule.enumValues) in RuleChecks(name, rule, v)
            <==> |rule.enumValues| > 0 && ValueText(v) !in rule.enumValues
  {
    assert RuleChecks(name, rule, v) == KindChecks(name, rule, v) + EnumChecks(name, rule, v);
    KindCheckKinds(name, rule, v);
  }

  /** The kind checks never report an enum violation. */
  lemma KindCheckKinds(name: string, rule: Rule, v: FieldValue)
    ensures forall x :: x in KindChecks(name, rule, v) ==> !x.NotAllowed?
  {
    if !IsNumericType(rule.typeName) && rule.typeName == "string" {
      var s := ReflectString(v);
      var len := Utf8Length(s);
      var a := if rule.minLength.Some? && len < rule.minLength.value then [TooShort(name, rule.minLength.value)] else [];
      var b := if rule.maxLength.Some? && len > rule.maxLength.value then [TooLong(name, rule.maxLength.value)] else [];
      var c := if rule.format.Some? && FormatMatches(GoRegexp, rule.format.value, s) == Some(false)
               then [BadFormat(name, rule.format.value)] else [];
      assert KindChecks(name, rule, v) == a + b + c;
    }
  }

  /** A zero quality is absent, so it passes (the Java client reports it
      as below the minimum). */
  lemma ZeroQualityPasses(r: Request)
    requires r.image != "" && r.outputFormat != "" && r.quality == 0 && r.maxWidth == 0 && r.maxHeight == 0
    ensures RequestReports(r) == []
  {
  }

  /** A negative quality is reported below the minimum, which `%v` prints
      as "1". */
  lemma NegativeQuality(r: Request)
    requires r.image != "" && r.outputFormat != "" && r.quality == -5 && r.maxWidth == 0 && r.maxHeight == 0
    ensures Messages(RequestReports(r), GoBoundText) == ["Parameter [" + "quality" + "] must be at least " + "1"]
  {
    var v := BelowMin("quality", 1);
    assert RequestReports(r) == [v];
    OneMessage(v, GoBoundText);
    assert GoBoundText(1) == "1";
  }

  /** One past the maximum is reported above it. */
  lemma QualityAboveMax(r: Request)
    requires r.image != "" && r.outputFormat != "" && r.quality == 101 && r.maxWidth == 0 && r.maxHeight == 0
    ensures Messages(RequestReports(r), GoBoundText) == ["Parameter [" + "quality" + "] must be at most " + "100"]
  {
    var v := AboveMax("quality", 100);
    assert RequestReports(r) == [v];
    OneMessage(v, GoBoundText);
    HundredText();
    assert GoBoundText(100) == "100";
  }

  lemma WidthAboveMax(r: Request)
    requires r.image != "" && r.outputFormat != "" && r.quality == 0 && r.maxWidth == 10001 && r.maxHeight == 0
    ensures Messages(RequestReports(r), GoBoundText) == ["Parameter [" + "maxWidth" + "] must be at most " + "10000"]
  {
    var v := AboveMax("maxWidth", 10000);
    assert RequestReports(r) == [v];
    OneMessage(v, GoBoundText);
    TenThousandText();
    assert GoBoundText(10000) == "10000";
  }

  /** The failure message of two reports: the lead-in, then the two
      texts joined by "; ". */
  lemma TwoFailures(a: string, b: string)
    ensures FailureMessage([a, b]) == "Validation failed: " + (a + "; " + b)
  {
    assert [a, b][1..] == [b];
    assert Join([a, b], "; ") == a + "; " + Join([b], "; ");
  }

  /** An empty request fails with both required fields, in declaration
      order, in one message. */
  lemma EmptyRequestError(r: Request)
    requires r.image == "" && r.outputFormat == "" && r.quality == 0 && r.maxWidth == 0 && r.maxHeight == 0
    ensures ValidationError(Messages(RequestReports(r), GoBoundText)).Error()
            == "Validation failed: " + (("Required parameter [" + "image" + "] is missing") + "; "
               + ("Required parameter [" + "outputFormat" + "] is missing"))
  {
    var v, w := Missing("image"), Missing("outputFormat");
    assert RequestReports(r) == [v, w];
    TwoMessages(v, w, GoBoundText);
    TwoFailures(MessageWith(v, GoBoundText), MessageWith(w, GoBoundText));
  }

  /** A field whose name no other field has: its key is in the map exactly
      when the field is not zero, with the field's text. */
  lemma SoleWriter(fs: seq<Field>, i: nat, k: string)
    requires i < |fs| && fs[i].tag != "" && JsonName(fs[i].tag) == k && k != "-"
    requires forall j :: 0 <= j < |fs| && j != i ==> JsonName(fs[j].tag) != k
    ensures k in QueryParams(fs) <==> !IsZero(fs[i].value)
    ensures k in QueryParams(fs) ==> QueryParams(fs)[k] == ValueText(fs[i].value)
  {
    QueryParamsKeys(fs, k);
    if !IsZero(fs[i].value) {
      QueryParamsValue(fs, k, i);
    }
  }

  /** The query map of a request: each name is present exactly when its
      field is not zero, with the field's `%v` text, and no other key is. */
  predicate QueryOfRequest(p: map<string, string>, r: Request)
  {
    && ("image" in p <==> r.image != "") && (r.image != "" ==> p["image"] == r.image)
    && ("outputFormat" in p <==> r.outputFormat != "") && (r.outputFormat != "" ==> p["outputFormat"] == r.outputFormat)
    && ("quality" in p <==> r.quality != 0) && (r.quality != 0 ==> p["quality"] == IntText(r.quality as int))
    && ("maxWidth" in p <==> r.maxWidth != 0) && (r.maxWidth != 0 ==> p["maxWidth"] == IntText(r.maxWidth as int))
    && ("maxHeight" in p <==> r.maxHeight != 0) && (r.maxHeight != 0 ==> p["maxHeight"] == IntText(r.maxHeight as int))
    && (forall k :: k in p ==> k in FieldNames())
  }

  /** The five names are pairwise distinct. */
  lemma DistinctNames(i: nat, j: nat)
    requires i < 5 && j < 5 && i != j
    ensures FieldNames()[i] != FieldNames()[j]
  {
    var lengths := [5, 12, 7, 8, 9];
    assert forall n :: 0 <= n < 5 ==> |FieldNames()[n]| == lengths[n];
  }

  /** Field `j` of `fs` is named `names[j]`, for every `j`. */
  predicate NamesListed(fs: seq<Field>, names: seq<string>)
  {
    |fs| == |names| && forall j :: 0 <= j < |fs| ==> NameIs(fs[j], names[j])
  }

  lemma FiveListed(fs: seq<Field>, n0: string, n1: string, n2: string, n3: string, n4: string)
    requires |fs| == 5
    requires NameIs(fs[0], n0) && NameIs(fs[1], n1) && NameIs(fs[2], n2)
    requires NameIs(fs[3], n3) && NameIs(fs[4], n4)
    ensures NamesListed(fs, [n0, n1, n2, n3, n4])
  {
  }

  /** A name no other field has: it is written exactly when its field is
      not zero, with that field's text. */
  lemma ListedWriter(fs: seq<Field>, names: seq<string>, i: nat)
    requires NamesListed(fs, names) && i < |names| && names[i] != "-"
    requires forall j :: 0 <= j < |names| && j != i ==> names[j] != names[i]
    ensures names[i] in QueryParams(fs) <==> !IsZero(fs[i].value)
    ensures names[i] in QueryParams(fs) ==> QueryParams(fs)[names[i]] == ValueText(fs[i].value)
  {
    SoleWriter(fs, i, names[i]);
  }

  /** Only listed names are written. */
  lemma OnlyListed(fs: seq<Field>, names: seq<string>, k: string)
    requires NamesListed(fs, names) && k in QueryParams(fs)
    ensures k in names
  {
    QueryParamsKeys(fs, k);
  }

  /** In a request-shaped list, name `i` is written by field `i` alone. */
  lemma ShapeWriter(fs: seq<Field>, i: nat)
    requires NamesListed(fs, FieldNames()) && i < 5
    ensures FieldNames()[i] in QueryParams(fs) <==> !IsZero(fs[i].value)
    ensures FieldNames()[i] in QueryParams(fs) ==> QueryParams(fs)[FieldNames()[i]] == ValueText(fs[i].value)
  {
    forall j | 0 <= j < 5 && j != i ensures FieldNames()[j] != FieldNames()[i] {
      DistinctNames(j, i);
    }
    assert FieldNames()[i] != "-" by {
      assert |FieldNames()[i]| >= 5;
    }
    ListedWriter(fs, FieldNames(), i);
  }

  lemma ShapeQuery(fs: seq<Field>, r: Request)
    requires RequestShape(fs, r)
    ensures QueryOfRequest(QueryParams(fs), r)
  {
    FiveListed(fs, "image", "outputFormat", "quality", "maxWidth", "maxHeight");
    ShapeWriter(fs, 0);
    ShapeWriter(fs, 1);
    ShapeWriter(fs, 2);
    ShapeWriter(fs, 3);
    ShapeWriter(fs, 4);
    forall k | k in QueryParams(fs) ensures k in FieldNames() {
      OnlyListed(fs, FieldNames(), k);
    }
  }

  /** ToQueryParams of a request writes exactly its non-zero fields. */
  lemma RequestQuery(r: Request)
    ensures QueryOfRequest(QueryParams(Fields(r)), r)
  {
    FieldsShape(r);
    ShapeQuery(Fields(r), r);
  }

  /** Quality 90 is sent as "90". */
  lemma QualityNinety(p: map<string, string>, r: Request)
    requires QueryOfRequest(p, r) && r.quality == 90
    ensures p["quality"] == "90"
  {
    assert NatText(90) == "90" by {
      assert 90 / 10 == 9 && 90 % 10 == 0;
    }
  }
}
