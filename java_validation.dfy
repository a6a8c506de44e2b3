/** The Java client's parameter validation (APIClient.java): the static rule
    table, the per-parameter checks, the validator that walks the whole
    table collecting every violation, and the exceptions it throws.

    The table lives in a HashMap, whose iteration order Java leaves
    unspecified; the validator therefore walks `entries`, the table's entry
    set in whatever order the map yields it, and the lemmas state what
    holds for every such order. */
module JavaValidation {
  import opened Wrappers
  import opened Text
  import opened Patterns
  import opened Rules

  /** A value of the parameter map: a String, or an Integer or Long. */
  datatype Value = Str(s: string) | Num(n: int)

  /** A Java double as far as the validator's comparisons can tell. */
  datatype Double = NaN | NegInfinity | Finite(r: real) | PosInfinity

  /** `d < b` on doubles; false whenever d is NaN. */
  predicate LessThan(d: Double, b: int)
  {
    d.NegInfinity? || (d.Finite? && d.r < b as real)
  }

  /** `d > b` on doubles; false whenever d is NaN. */
  predicate GreaterThan(d: Double, b: int)
  {
    d.PosInfinity? || (d.Finite? && d.r > b as real)
  }

  /** Double.parseDouble: the parsed value, or None where it throws
      NumberFormatException. */
  type Parser = string -> Option<Double>

  /** `value.toString()`. */
  function ValueText(v: Value): string
  {
    match v
    case Str(s) => s
    case Num(n) => IntText(n)
  }

  /** The numeric coercion: a Number's doubleValue(), otherwise the parse
      of the value's text. */
  function NumericValue(v: Value, parse: Parser): Option<Double>
  {
    match v
    case Num(n) => Some(Finite(n as real))
    case Str(s) => parse(s)
  }

  /** String.length(): the number of UTF-16 code units. */
  function Utf16Length(s: string): nat
  {
    if s == [] then 0 else (if s[0] as int >= 0x1_0000 then 2 else 1) + Utf16Length(s[1..])
  }

  /** The static table built by createValidationRules. */
  function ValidationRules(): map<string, Rule>
  {
    map[
      "image" := Basic("string", true),
      "outputFormat" := Basic("string", true),
      "quality" := Ranged("integer", 1, 100),
      "maxWidth" := Ranged("integer", 1, 10000),
      "maxHeight" := Ranged("integer", 1, 10000)
    ]
  }

  /** The value the validator sees for a key: `params.get(key)`, where a
      null map counts as empty. */
  function Lookup(params: Option<map<string, Value>>, key: string): Option<Value>
  {
    if params.Some? && key in params.value then Some(params.value[key]) else None
  }

  /** A required parameter is missing when it is absent or the empty string. */
  predicate IsMissing(value: Option<Value>)
  {
    value.None? || value == Some(Str(""))
  }

  /** The type-specific checks for a present value. */
  function TypeChecks(name: string, rule: Rule, x: Value, parse: Parser): seq<Violation>
  {
    if IsNumericType(rule.typeName) then
      match NumericValue(x, parse)
      case None => [NotNumeric(name, rule.typeName)]
      case Some(d) =>
        (if rule.min.Some? && LessThan(d, rule.min.value) then [BelowMin(name, rule.min.value)] else [])
        + (if rule.max.Some? && GreaterThan(d, rule.max.value) then [AboveMax(name, rule.max.value)] else [])
    else if rule.typeName == "string" && x.Str? then
      var n := Utf16Length(x.s);
      (if rule.minLength.Some? && n < rule.minLength.value then [TooShort(name, rule.minLength.value)] else [])
      + (if rule.maxLength.Some? && n > rule.maxLength.value then [TooLong(name, rule.maxLength.value)] else [])
      + (if rule.format.Some? && FormatMatches(JavaRegex, rule.format.value, x.s) == Some(false)
         then [BadFormat(name, rule.format.value)] else [])
    else []
  }

  /** The enum check, run for every present value of every type. */
  function EnumCheck(name: string, rule: Rule, x: Value): seq<Violation>
  {
    if |rule.enumValues| > 0 && ValueText(x) !in rule.enumValues
    then [NotAllowed(name, rule.enumValues)] else []
  }

  /** Everything one rule reports about one parameter. */
  function CheckParam(name: string, rule: Rule, value: Option<Value>, parse: Parser): seq<Violation>
  {
    if rule.required && IsMissing(value) then [Missing(name)]
    else if value.None? then []
    else TypeChecks(name, rule, value.value, parse) + EnumCheck(name, rule, value.value)
  }

  /** Every report of a rule names the parameter it was checking. */
  lemma CheckParamNames(name: string, rule: Rule, value: Option<Value>, parse: Parser)
    ensures forall v :: v in CheckParam(name, rule, value, parse) ==> v.param == name
  {
    if !(rule.required && IsMissing(value)) && value.Some? {
      TypeCheckNames(name, rule, value.value, parse);
    }
  }

  lemma TypeCheckNames(name: string, rule: Rule, x: Value, parse: Parser)
    ensures forall v :: v in TypeChecks(name, rule, x, parse) ==> v.param == name
  {
    if IsNumericType(rule.typeName) {
    } else if rule.typeName == "string" && x.Str? {
      var n := Utf16Length(x.s);
      var a := if rule.minLength.Some? && n < rule.minLength.value then [TooShort(name, rule.minLength.value)] else [];
      var b := if rule.maxLength.Some? && n > rule.maxLength.value then [TooLong(name, rule.maxLength.value)] else [];
      var c := if rule.format.Some? && FormatMatches(JavaRegex, rule.format.value, x.s) == Some(false)
               then [BadFormat(name, rule.format.value)] else [];
      assert TypeChecks(name, rule, x, parse) == a + b + c;
    }
  }

  /** One entry of the table's entry set. */
  type Entry = (string, Rule)

  /** `entries` is an iteration order of the entry set of `rules`: every
      key exactly once, each with its own rule. */
  predicate EntrySetOf<V(==)>(entries: seq<(string, V)>, rules: map<string, V>)
  {
    && |entries| == |rules|
    && (forall i :: 0 <= i < |entries| ==> entries[i].0 in rules && rules[entries[i].0] == entries[i].1)
    && (forall k :: k in rules ==> exists i :: 0 <= i < |entries| && entries[i].0 == k)
  }

  /** The violations collected by a walk over the entries in order. */
  function Violations(entries: seq<Entry>, params: Option<map<string, Value>>, parse: Parser): seq<Violation>
  {
    if entries == [] then []
    else CheckParam(entries[0].0, entries[0].1, Lookup(params, entries[0].0), parse)
         + Violations(entries[1..], params, parse)
  }

  lemma ViolationsStep(entries: seq<Entry>, i: nat, params: Option<map<string, Value>>, parse: Parser)
    requires i < |entries|
    ensures Violations(entries[i..], params, parse)
         == CheckParam(entries[i].0, entries[i].1, Lookup(params, entries[i].0), parse)
            + Violations(entries[i + 1..], params, parse)
  {
    assert entries[i..][1..] == entries[i + 1..];
  }

  /** One iteration of validateParams keeps the reports collected so far a
      prefix of the whole list. */
  lemma CollectStep(entries: seq<Entry>, i: nat, params: Option<map<string, Value>>, parse: Parser,
                    errors: seq<Violation>, found: seq<Violation>)
    requires i < |entries|
    requires errors + Violations(entries[i..], params, parse) == Violations(entries, params, parse)
    requires found == CheckParam(entries[i].0, entries[i].1, Lookup(params, entries[i].0), parse)
    ensures (errors + found) + Violations(entries[i + 1..], params, parse) == Violations(entries, params, parse)
  {
    ViolationsStep(entries, i, params, parse);
    var tail := Violations(entries[i + 1..], params, parse);
    assert (errors + found) + tail == errors + (found + tail);
  }

  /** The exceptions the client throws or wraps: APIException, its subclass
      ValidationException (which keeps the violations; getErrors() renders
      them), and any other exception, known only by its message. */
  datatype ApiError =
    | ValidationException(violations: seq<Violation>)
    | ApiException(message: string, statusCode: Option<int>, cause: Option<ApiError>)
    | OtherException(message: string)
  {
    /** ValidationException.getErrors(). */
    function Errors(): seq<string>
      requires ValidationException?
    {
      Messages(violations, JavaBoundText)
    }

    /** getMessage(). */
    function Message(): string
    {
      match this
      case ValidationException(vs) => FailureMessage(Messages(vs, JavaBoundText))
      case ApiException(m, _, _) => m
      case OtherException(m) => m
    }
  }

  /** The checks of one loop iteration of validateParams: the reports for
      one parameter, in the order the source appends them. */
  method CheckRule(name: string, rule: Rule, params: map<string, Value>,
                   ghost parameters: Option<map<string, Value>>, parse: Parser)
    returns (found: seq<Violation>)
    requires params == if parameters.Some? then parameters.value else map[]
    ensures found == CheckParam(name, rule, Lookup(parameters, name), parse)
  {
    var value := if name in params then Some(params[name]) else None;
    assert value == Lookup(parameters, name);
    if rule.required && (value.None? || value.value == Str("")) {
      found := [Missing(name)];
    } else if value.Some? {
      var x := value.value;
      found := CheckType(name, rule, x, parse);
      if |rule.enumValues| > 0 && ValueText(x) !in rule.enumValues {
        found := found + [NotAllowed(name, rule.enumValues)];
      }
    } else {
      found := [];
    }
  }

  /** The type-specific branch of one iteration. */
  method CheckType(name: string, rule: Rule, x: Value, parse: Parser) returns (found: seq<Violation>)
    ensures found == TypeChecks(name, rule, x, parse)
  {
    found := [];
    if IsNumericType(rule.typeName) {
      var num := NumericValue(x, parse);
      if num.None? {
        found := found + [NotNumeric(name, rule.typeName)];
      } else {
        if rule.min.Some? && LessThan(num.value, rule.min.value) {
          found := found + [BelowMin(name, rule.min.value)];
        }
        if rule.max.Some? && GreaterThan(num.value, rule.max.value) {
          found := found + [AboveMax(name, rule.max.value)];
        }
      }
    } else if rule.typeName == "string" && x.Str? {
      var n := Utf16Length(x.s);
      if rule.minLength.Some? && n < rule.minLength.value {
        found := found + [TooShort(name, rule.minLength.value)];
      }
      if rule.maxLength.Some? && n > rule.maxLength.value {
        found := found + [TooLong(name, rule.maxLength.value)];
      }
      if rule.format.Some? {
        var matched := FormatMatches(JavaRegex, rule.format.value, x.s);
        if matched == Some(false) {
          found := found + [BadFormat(name, rule.format.value)];
        }
      }
    }
  }

  /** validateParams: walks the table's entries, appending a report per
      violation, and throws a ValidationException holding all of them when
      there is at least one. */
  method ValidateParams(entries: seq<Entry>, parameters: Option<map<string, Value>>, parse: Parser)
    returns (thrown: Option<ApiError>)
    ensures thrown.None? <==> Violations(entries, parameters, parse) == []
    ensures thrown.Some? ==> thrown.value == ValidationException(Violations(entries, parameters, parse))
  {
    if |entries| == 0 {
      return None;
    }
    var errors: seq<Violation> := [];
    var params := if parameters.Some? then parameters.value else map[];
    var i := 0;
    while i < |entries|
      invariant 0 <= i <= |entries|
      invariant errors + Violations(entries[i..], parameters, parse) == Violations(entries, parameters, parse)
    {
      var (name, rule) := entries[i];
      var found := CheckRule(name, rule, params, parameters, parse);
      CollectStep(entries, i, parameters, parse, errors, found);
      errors := errors + found;
      i := i + 1;
    }
    assert entries[i..] == [];
    assert errors + [] == errors;
    if |errors| > 0 {
      thrown := Some(ValidationException(errors));
    } else {
      thrown := None;
    }
  }
}

/** What the Java validator guarantees, for every iteration order of its
    rule table. */
module JavaValidationFacts {
  import opened Wrappers
  import opened Text
  import opened Patterns
  import opened Rules
  import opened JavaValidation

  lemma {:induction false} ViolationsAppend(a: seq<Entry>, b: seq<Entry>, params: Option<map<string, Value>>, parse: Parser)
    ensures Violations(a + b, params, parse) == Violations(a, params, parse) + Violations(b, params, parse)
  {
    if a == [] {
      assert a + b == b;
    } else {
      var head := CheckParam(a[0].0, a[0].1, Lookup(params, a[0].0), parse);
      assert (a + b)[0] == a[0];
      assert (a + b)[1..] == a[1..] + b;
      ViolationsAppend(a[1..], b, params, parse);
      AppendAssoc(head, Violations(a[1..], params, parse), Violations(b, params, parse));
    }
  }

  predicate DistinctKeys(entries: seq<Entry>)
  {
    forall i, j :: 0 <= i < j < |entries| ==> entries[i].0 != entries[j].0
  }

  function KeySet(entries: seq<Entry>): set<string>
  {
    set i | 0 <= i < |entries| :: entries[i].0
  }

  /** A sequence of entries has at most as many keys as entries, and as
      many only when no key repeats. */
  lemma {:induction false} KeySetSize(entries: seq<Entry>)
    ensures |KeySet(entries)| <= |entries|
    ensures |KeySet(entries)| == |entries| ==> DistinctKeys(entries)
  {
    if entries != [] {
      var rest := entries[1..];
      KeySetSize(rest);
      var k := entries[0].0;
      assert KeySet(entries) == {k} + KeySet(rest) by {
        forall x | x in KeySet(entries) ensures x in {k} + KeySet(rest) {
          var i :| 0 <= i < |entries| && entries[i].0 == x;
          if i > 0 { assert rest[i - 1].0 == x; }
        }
        forall x | x in KeySet(rest) ensures x in KeySet(entries) {
          var i :| 0 <= i < |rest| && rest[i].0 == x;
          assert entries[i + 1].0 == x;
        }
      }
      if k in KeySet(rest) {
        assert KeySet(entries) == KeySet(rest);
      } else {
        assert |KeySet(entries)| == |KeySet(rest)| + 1;
        if |KeySet(entries)| == |entries| {
          forall i, j | 0 <= i < j < |entries| ensures entries[i].0 != entries[j].0 {
            if i == 0 {
              assert rest[j - 1].0 == entries[j].0;
            } else {
              assert rest[i - 1] == entries[i] && rest[j - 1] == entries[j];
            }
          }
        }
      }
    }
  }

  /** An entry set never repeats a key. */
  lemma EntrySetDistinct(entries: seq<Entry>, rules: map<string, Rule>)
    requires EntrySetOf(entries, rules)
    ensures DistinctKeys(entries)
  {
    assert KeySet(entries) == rules.Keys by {
      forall k | k in rules ensures k in KeySet(entries) {
        var i :| 0 <= i < |entries| && entries[i].0 == k;
      }
    }
    KeySetSize(entries);
  }

  /** No entry has key `k`: no report names `k`. */
  lemma {:induction false} NamedAbsent(entries: seq<Entry>, params: Option<map<string, Value>>, parse: Parser, k: string)
    requires forall i :: 0 <= i < |entries| ==> entries[i].0 != k
    ensures Named(Violations(entries, params, parse), k) == []
  {
    if entries != [] {
      var rest := entries[1..];
      assert forall i :: 0 <= i < |rest| ==> rest[i] == entries[i + 1];
      NamedAbsent(rest, params, parse, k);
      var head := CheckParam(entries[0].0, entries[0].1, Lookup(params, entries[0].0), parse);
      NamedAppend(head, Violations(rest, params, parse), k);
      CheckParamNames(entries[0].0, entries[0].1, Lookup(params, entries[0].0), parse);
      NamedNone(head, k);
    }
  }

  /** The entry at `i` is the only one with key `k`: the reports naming `k`
      are that entry's checks. */
  lemma {:induction false} NamedPresent(entries: seq<Entry>, i: nat, params: Option<map<string, Value>>, parse: Parser, k: string)
    requires DistinctKeys(entries) && i < |entries| && entries[i].0 == k
    ensures Named(Violations(entries, params, parse), k) == CheckParam(k, entries[i].1, Lookup(params, k), parse)
  {
    var rest := entries[1..];
    assert forall j :: 0 <= j < |rest| ==> rest[j] == entries[j + 1];
    var head := CheckParam(entries[0].0, entries[0].1, Lookup(params, entries[0].0), parse);
    NamedAppend(head, Violations(rest, params, parse), k);
    if i == 0 {
      CheckParamNames(entries[0].0, entries[0].1, Lookup(params, entries[0].0), parse);
      NamedAll(head, k);
      assert forall j :: 0 <= j < |rest| ==> rest[j].0 != k by {
        forall j | 0 <= j < |rest| ensures rest[j].0 != k {
          assert entries[0].0 != entries[j + 1].0;
        }
      }
      NamedAbsent(rest, params, parse, k);
    } else {
      assert entries[0].0 != k;
      CheckParamNames(entries[0].0, entries[0].1, Lookup(params, entries[0].0), parse);
      NamedNone(head, k);
      assert DistinctKeys(rest);
      NamedPresent(rest, i - 1, params, parse, k);
    }
  }

  /** Per parameter, the validator reports exactly what that parameter's
      rule reports (nothing for a key the table does not hold), whatever
      the iteration order. */
  lemma NamedViolations(entries: seq<Entry>, rules: map<string, Rule>, params: Option<map<string, Value>>, parse: Parser, k: string)
    requires EntrySetOf(entries, rules)
    ensures Named(Violations(entries, params, parse), k)
            == if k in rules then CheckParam(k, rules[k], Lookup(params, k), parse) else []
  {
    if k in rules {
      EntrySetDistinct(entries, rules);
      var i :| 0 <= i < |entries| && entries[i].0 == k;
      NamedPresent(entries, i, params, parse, k);
    } else {
      NamedAbsent(entries, params, parse, k);
    }
  }

  /** A required parameter that is absent or empty gets exactly one report,
      the missing one: nothing else is checked for it. */
  lemma RequiredMissingReported(entries: seq<Entry>, rules: map<string, Rule>, params: Option<map<string, Value>>, parse: Parser, k: string)
    requires EntrySetOf(entries, rules)
    requires k in rules && rules[k].required && IsMissing(Lookup(params, k))
    ensures Named(Violations(entries, params, parse), k) == [Missing(k)]
  {
    NamedViolations(entries, rules, params, parse, k);
  }

  /** An absent optional parameter contributes nothing, and neither does a
      key the table does not hold. */
  lemma AbsentOrUnknownSilent(entries: seq<Entry>, rules: map<string, Rule>, params: Option<map<string, Value>>, parse: Parser, k: string)
    requires EntrySetOf(entries, rules)
    requires k !in rules || (!rules[k].required && Lookup(params, k).None?)
    ensures Named(Violations(entries, params, parse), k) == []
  {
    NamedViolations(entries, rules, params, parse, k);
  }

  /** Only the table's keys are examined: two parameter maps that agree on
      them get the same reports, so extra keys are never rejected. */
  lemma {:induction false} OnlyTableKeysExamined(entries: seq<Entry>, p1: Option<map<string, Value>>, p2: Option<map<string, Value>>, parse: Parser)
    requires forall i :: 0 <= i < |entries| ==> Lookup(p1, entries[i].0) == Lookup(p2, entries[i].0)
    ensures Violations(entries, p1, parse) == Violations(entries, p2, parse)
  {
    if entries != [] {
      assert forall i :: 0 <= i < |entries[1..]| ==> entries[1..][i] == entries[i + 1];
      OnlyTableKeysExamined(entries[1..], p1, p2, parse);
    }
  }

  /** Taking one entry out of a walk takes out exactly that entry's
      reports. */
  lemma RemoveEntry(e: seq<Entry>, i: nat, params: Option<map<string, Value>>, parse: Parser)
    requires i < |e|
    ensures multiset(Violations(e, params, parse))
            == multiset(CheckParam(e[i].0, e[i].1, Lookup(params, e[i].0), parse))
             + multiset(Violations(e[..i] + e[i + 1..], params, parse))
  {
    var left, right := e[..i], e[i + 1..];
    assert e == (left + [e[i]]) + right;
    ViolationsAppend(left + [e[i]], right, params, parse);
    ViolationsAppend(left, [e[i]], params, parse);
    ViolationsAppend(left, right, params, parse);
    assert Violations([e[i]], params, parse) == CheckParam(e[i].0, e[i].1, Lookup(params, e[i].0), parse);
  }

  /** Equal multisets of entries stay equal once the same entry is taken
      out of both. */
  lemma RemoveSame(e1: seq<Entry>, e2: seq<Entry>, i: nat)
    requires multiset(e1) == multiset(e2) && |e1| > 0 && i < |e2| && e2[i] == e1[0]
    ensures multiset(e1[1..]) == multiset(e2[..i] + e2[i + 1..])
  {
    var x := e1[0];
    assert e2 == e2[..i] + [x] + e2[i + 1..];
    assert e1 == [x] + e1[1..];
    assert multiset(e2) == multiset(e2[..i] + e2[i + 1..]) + multiset{x};
    assert multiset(e1) == multiset(e1[1..]) + multiset{x};
    forall y ensures multiset(e1[1..])[y] == multiset(e2[..i] + e2[i + 1..])[y] {
      assert multiset(e1)[y] == multiset(e2)[y];
    }
  }

  /** The reports do not depend on the iteration order: two orders of the
      same entries report the same violations, each as often. */
  lemma {:induction false} OrderIrrelevant(e1: seq<Entry>, e2: seq<Entry>, params: Option<map<string, Value>>, parse: Parser)
    requires multiset(e1) == multiset(e2)
    ensures multiset(Violations(e1, params, parse)) == multiset(Violations(e2, params, parse))
    decreases |e1|
  {
    if e1 == [] {
      assert |e2| == |multiset(e2)| == 0;
    } else {
      var x := e1[0];
      assert x in multiset(e2) by { assert x in multiset(e1); }
      var i :| 0 <= i < |e2| && e2[i] == x;
      RemoveSame(e1, e2, i);
      OrderIrrelevant(e1[1..], e2[..i] + e2[i + 1..], params, parse);
      RemoveEntry(e2, i, params, parse);
      ViolationsStep(e1, 0, params, parse);
      assert e1[0..] == e1;
    }
  }

  /** The table's entries in the order createValidationRules adds them. */
  function DeclaredEntries(): seq<Entry>
  {
    [ ("image", Basic("string", true)),
      ("outputFormat", Basic("string", true)),
      ("quality", Ranged("integer", 1, 100)),
      ("maxWidth", Ranged("integer", 1, 10000)),
      ("maxHeight", Ranged("integer", 1, 10000)) ]
  }

  /** The table's five rules, in the declared order. */
  predicate DeclaredShape(d: seq<Entry>)
  {
    && |d| == 5
    && d[0] == ("image", Basic("string", true))
    && d[1] == ("outputFormat", Basic("string", true))
    && d[2] == ("quality", Ranged("integer", 1, 100))
    && d[3] == ("maxWidth", Ranged("integer", 1, 10000))
    && d[4] == ("maxHeight", Ranged("integer", 1, 10000))
  }

  lemma TableKeys()
    ensures ValidationRules().Keys == {"image", "outputFormat", "quality", "maxWidth", "maxHeight"}
    ensures |ValidationRules()| == 5
  {
    var keys := ValidationRules().Keys;
    assert keys == {"image", "outputFormat", "quality", "maxWidth", "maxHeight"};
  }

  lemma TableValues()
    ensures ValidationRules()["image"] == Basic("string", true)
    ensures ValidationRules()["outputFormat"] == Basic("string", true)
    ensures ValidationRules()["quality"] == Ranged("integer", 1, 100)
    ensures ValidationRules()["maxWidth"] == Ranged("integer", 1, 10000)
    ensures ValidationRules()["maxHeight"] == Ranged("integer", 1, 10000)
  {
  }

  lemma ShapeIsEntrySet(d: seq<Entry>)
    requires DeclaredShape(d)
    ensures EntrySetOf(d, ValidationRules())
  {
    TableKeys();
    TableValues();
    var rules := ValidationRules();
    forall i | 0 <= i < |d| ensures d[i].0 in rules && rules[d[i].0] == d[i].1 {
      assert i == 0 || i == 1 || i == 2 || i == 3 || i == 4;
    }
    forall k | k in rules ensures exists i :: 0 <= i < |d| && d[i].0 == k {
      if k == d[0].0 { assert d[0].0 == k; }
      else if k == d[1].0 { assert d[1].0 == k; }
      else if k == d[2].0 { assert d[2].0 == k; }
      else if k == d[3].0 { assert d[3].0 == k; }
      else { assert d[4].0 == k; }
    }
  }

  /** Any two iteration orders of one table are rearrangements of each
      other. */
  lemma {:induction false} SameEntrySet(e1: seq<Entry>, e2: seq<Entry>, rules: map<string, Rule>)
    requires EntrySetOf(e1, rules) && EntrySetOf(e2, rules)
    ensures multiset(e1) == multiset(e2)
  {
    EntrySetDistinct(e1, rules);
    EntrySetDistinct(e2, rules);
    forall x: Entry ensures multiset(e1)[x] == multiset(e2)[x] {
      DistinctCount(e1, x);
      DistinctCount(e2, x);
      if x in e1 {
        var i :| 0 <= i < |e1| && e1[i] == x;
        var j :| 0 <= j < |e2| && e2[j].0 == x.0;
        assert e2[j] == x;
      }
      if x in e2 {
        var j :| 0 <= j < |e2| && e2[j] == x;
        var i :| 0 <= i < |e1| && e1[i].0 == x.0;
        assert e1[i] == x;
      }
    }
  }

  lemma {:induction false} DistinctCount(entries: seq<Entry>, x: Entry)
    requires DistinctKeys(entries)
    ensures multiset(entries)[x] == if x in entries then 1 else 0
  {
    if entries != [] {
      var rest := entries[1..];
      assert entries == [entries[0]] + rest;
      assert DistinctKeys(rest) by {
        forall i, j | 0 <= i < j < |rest| ensures rest[i].0 != rest[j].0 {
          assert rest[i] == entries[i + 1] && rest[j] == entries[j + 1];
        }
      }
      DistinctCount(rest, x);
      if x == entries[0] {
        assert x !in rest;
      }
    }
  }

  /** The reports for the declared order, written out key by key. */
  lemma FiveEntries(d: seq<Entry>, params: Option<map<string, Value>>, parse: Parser)
    requires |d| == 5
    ensures Violations(d, params, parse)
            == CheckParam(d[0].0, d[0].1, Lookup(params, d[0].0), parse)
             + (CheckParam(d[1].0, d[1].1, Lookup(params, d[1].0), parse)
             + (CheckParam(d[2].0, d[2].1, Lookup(params, d[2].0), parse)
             + (CheckParam(d[3].0, d[3].1, Lookup(params, d[3].0), parse)
             + CheckParam(d[4].0, d[4].1, Lookup(params, d[4].0), parse))))
  {
    ViolationsStep(d, 0, params, parse);
    ViolationsStep(d, 1, params, parse);
    ViolationsStep(d, 2, params, parse);
    ViolationsStep(d, 3, params, parse);
    ViolationsStep(d, 4, params, parse);
    assert d[5..] == [];
    var c4 := CheckParam(d[4].0, d[4].1, Lookup(params, d[4].0), parse);
    assert c4 + [] == c4;
  }

  /** The image and outputFormat rule: only a missing value is reported. */
  lemma RequiredStringRule(name: string, value: Option<Value>, parse: Parser)
    ensures var r := CheckParam(name, Basic("string", true), value, parse);
            (IsMissing(value) ==> r == [Missing(name)]) && (!IsMissing(value) ==> r == [])
  {
    assert !IsNumericType("string");
  }

  /** A present numeric parameter within the table's bounds. */
  predicate WithinBounds(value: Option<Value>, parse: Parser, hi: int)
  {
    value.None? ||
    (NumericValue(value.value, parse).Some?
     && !LessThan(NumericValue(value.value, parse).value, 1)
     && !GreaterThan(NumericValue(value.value, parse).value, hi))
  }

  /** The quality, maxWidth and maxHeight rule: nothing is reported exactly
      when the value is absent or a number inside [1, hi]. */
  lemma RangedRule(name: string, hi: int, value: Option<Value>, parse: Parser)
    ensures CheckParam(name, Ranged("integer", 1, hi), value, parse) == [] <==> WithinBounds(value, parse, hi)
    ensures value.None? ==> CheckParam(name, Ranged("integer", 1, hi), value, parse) == []
  {
    assert IsNumericType("integer");
  }

  /** The reports in the declared order for a null parameter map. */
  lemma DeclaredNullReports(d: seq<Entry>, parse: Parser)
    requires DeclaredShape(d)
    ensures Violations(d, None, parse) == [Missing("image"), Missing("outputFormat")]
  {
    FiveEntries(d, None, parse);
    RequiredStringRule("image", None, parse);
    RequiredStringRule("outputFormat", None, parse);
    RangedRule("quality", 100, None, parse);
    RangedRule("maxWidth", 10000, None, parse);
    RangedRule("maxHeight", 10000, None, parse);
  }

  /** Every iteration order of the table reports what the declared order
      reports, each as often. */
  lemma LikeDeclared(entries: seq<Entry>, params: Option<map<string, Value>>, parse: Parser)
    requires EntrySetOf(entries, ValidationRules())
    ensures multiset(Violations(entries, params, parse)) == multiset(Violations(DeclaredEntries(), params, parse))
  {
    ShapeIsEntrySet(DeclaredEntries());
    SameEntrySet(entries, DeclaredEntries(), ValidationRules());
    OrderIrrelevant(entries, DeclaredEntries(), params, parse);
  }

  /** With a null parameter map the validator reports exactly the two
      required parameters as missing, in some order. */
  lemma NullParametersReportBothRequired(entries: seq<Entry>, parse: Parser)
    requires EntrySetOf(entries, ValidationRules())
    ensures multiset(Violations(entries, None, parse)) == multiset{Missing("image"), Missing("outputFormat")}
  {
    LikeDeclared(entries, None, parse);
    DeclaredNullReports(DeclaredEntries(), parse);
  }

  /** What the Java table accepts, stated key by key. */
  predicate Acceptable(params: Option<map<string, Value>>, parse: Parser)
  {
    && !IsMissing(Lookup(params, "image"))
    && !IsMissing(Lookup(params, "outputFormat"))
    && WithinBounds(Lookup(params, "quality"), parse, 100)
    && WithinBounds(Lookup(params, "maxWidth"), parse, 10000)
    && WithinBounds(Lookup(params, "maxHeight"), parse, 10000)
  }

  lemma DeclaredAcceptance(d: seq<Entry>, params: Option<map<string, Value>>, parse: Parser)
    requires DeclaredShape(d)
    ensures Violations(d, params, parse) == [] <==> Acceptable(params, parse)
  {
    FiveEntries(d, params, parse);
    var c0 := CheckParam("image", Basic("string", true), Lookup(params, "image"), parse);
    var c1 := CheckParam("outputFormat", Basic("string", true), Lookup(params, "outputFormat"), parse);
    var c2 := CheckParam("quality", Ranged("integer", 1, 100), Lookup(params, "quality"), parse);
    var c3 := CheckParam("maxWidth", Ranged("integer", 1, 10000), Lookup(params, "maxWidth"), parse);
    var c4 := CheckParam("maxHeight", Ranged("integer", 1, 10000), Lookup(params, "maxHeight"), parse);
    assert Violations(d, params, parse) == c0 + (c1 + (c2 + (c3 + c4)));
    EmptyJoin(c0, c1, c2, c3, c4);
    RequiredStringRule("image", Lookup(params, "image"), parse);
    RequiredStringRule("outputFormat", Lookup(params, "outputFormat"), parse);
    RangedRule("quality", 100, Lookup(params, "quality"), parse);
    RangedRule("maxWidth", 10000, Lookup(params, "maxWidth"), parse);
    RangedRule("maxHeight", 10000, Lookup(params, "maxHeight"), parse);
  }

  lemma EmptyJoin<T>(c0: seq<T>, c1: seq<T>, c2: seq<T>, c3: seq<T>, c4: seq<T>)
    ensures c0 + (c1 + (c2 + (c3 + c4))) == [] <==> c0 == [] && c1 == [] && c2 == [] && c3 == [] && c4 == []
  {
    assert |c0 + (c1 + (c2 + (c3 + c4)))| == |c0| + |c1| + |c2| + |c3| + |c4|;
  }

  /** The validator throws nothing exactly when the parameters are
      acceptable, whatever the iteration order. */
  lemma AcceptanceExact(entries: seq<Entry>, params: Option<map<string, Value>>, parse: Parser)
    requires EntrySetOf(entries, ValidationRules())
    ensures Violations(entries, params, parse) == [] <==> Acceptable(params, parse)
  {
    LikeDeclared(entries, params, parse);
    DeclaredAcceptance(DeclaredEntries(), params, parse);
    var vs := Violations(entries, params, parse);
    var ds := Violations(DeclaredEntries(), params, parse);
    assert |vs| == |multiset(vs)| == |multiset(ds)| == |ds|;
  }

  /** One of the three numeric parameters of the table, with its upper
      bound (the lower bound is 1 for all three). */
  predicate NumericKey(k: string, hi: int)
  {
    (k == "quality" && hi == 100) || (k == "maxWidth" && hi == 10000) || (k == "maxHeight" && hi == 10000)
  }

  lemma NumericKeyRule(k: string, hi: int)
    requires NumericKey(k, hi)
    ensures k in ValidationRules() && ValidationRules()[k] == Ranged("integer", 1, hi)
  {
  }

  /** What a numeric rule reports about a present value: the lone type
      report when it does not parse, and otherwise one report per violated
      bound, the minimum's first. */
  predicate NumericReportsShape(r: seq<Violation>, k: string, hi: int, num: Option<Double>)
  {
    match num
    case None => r == [NotNumeric(k, "integer")]
    case Some(d) =>
      r == (if LessThan(d, 1) then [BelowMin(k, 1)] else []) + (if GreaterThan(d, hi) then [AboveMax(k, hi)] else [])
  }

  lemma RangedReports(k: string, hi: int, x: Value, parse: Parser)
    ensures NumericReportsShape(CheckParam(k, Ranged("integer", 1, hi), Some(x), parse), k, hi, NumericValue(x, parse))
  {
    assert IsNumericType("integer");
  }

  /** For a present numeric parameter: a value that does not parse gets the
      single type report and no bound report; otherwise there is one report
      per violated bound, and none for a value inside [1, hi]. */
  lemma NumericReports(entries: seq<Entry>, params: Option<map<string, Value>>, parse: Parser, k: string, hi: int, x: Value)
    requires EntrySetOf(entries, ValidationRules())
    requires NumericKey(k, hi) && Lookup(params, k) == Some(x)
    ensures NumericReportsShape(Named(Violations(entries, params, parse), k), k, hi, NumericValue(x, parse))
  {
    NamedViolations(entries, ValidationRules(), params, parse, k);
    NumericKeyRule(k, hi);
    RangedReports(k, hi, x, parse);
  }

  /** For whole numbers: exactly those in [1, hi] pass, so 1 and the upper
      bound pass, 0 is reported as below the minimum and hi + 1 as above
      the maximum. */
  lemma WholeNumberBounds(entries: seq<Entry>, params: Option<map<string, Value>>, parse: Parser, k: string, hi: int, n: int)
    requires EntrySetOf(entries, ValidationRules())
    requires NumericKey(k, hi) && Lookup(params, k) == Some(Num(n))
    ensures var r := Named(Violations(entries, params, parse), k);
            && (r == [] <==> 1 <= n <= hi)
            && (n < 1 ==> r == [BelowMin(k, 1)])
            && (n > hi ==> r == [AboveMax(k, hi)])
  {
    NamedViolations(entries, ValidationRules(), params, parse, k);
    NumericKeyRule(k, hi);
    RangedWhole(k, hi, n, parse);
  }

  lemma RangedWhole(k: string, hi: int, n: int, parse: Parser)
    ensures var r := CheckParam(k, Ranged("integer", 1, hi), Some(Num(n)), parse);
            && (r == [] <==> 1 <= n <= hi)
            && (n < 1 && 1 <= hi ==> r == [BelowMin(k, 1)])
            && (n > hi && 1 <= hi ==> r == [AboveMax(k, hi)])
  {
    assert IsNumericType("integer");
  }

  /** A value that parses to NaN compares false with both bounds, so it
      passes an integer rule. */
  lemma NaNPasses(entries: seq<Entry>, params: Option<map<string, Value>>, parse: Parser, k: string, hi: int, s: string)
    requires EntrySetOf(entries, ValidationRules())
    requires NumericKey(k, hi) && Lookup(params, k) == Some(Str(s)) && parse(s) == Some(NaN)
    ensures Named(Violations(entries, params, parse), k) == []
  {
    NamedViolations(entries, ValidationRules(), params, parse, k);
    NumericKeyRule(k, hi);
    RangedReports(k, hi, Str(s), parse);
  }

  /** Java prints a bound as a Double: the quality minimum reads "1.0". */
  lemma BelowMinText()
    ensures JavaMessage(BelowMin("quality", 1)) == "Parameter [quality] must be at least 1.0"
  {
    assert JavaBoundText(1) == "1.0";
  }

  lemma HundredBound()
    ensures JavaBoundText(100) == "100.0"
  {
    HundredText();
  }

  /** ... and the quality maximum reads "100.0". */
  lemma AboveMaxText()
    ensures JavaMessage(AboveMax("quality", 100)) == "Parameter [quality] must be at most 100.0"
  {
    HundredBound();
  }

  /** A table without rules accepts every parameter map. */
  lemma EmptyTableAcceptsAll(entries: seq<Entry>, params: Option<map<string, Value>>, parse: Parser)
    requires EntrySetOf(entries, map[])
    ensures Violations(entries, params, parse) == []
  {
  }

  /** A present string value is reported against its declared format
      exactly when the pattern refuses it; a value the pattern accepts,
      and any value of another type, gets no format report. */
  lemma FormatReported(name: string, rule: Rule, x: Value, parse: Parser, f: string)
    requires !(rule.required && IsMissing(Some(x)))
    ensures BadFormat(name, f) in CheckParam(name, rule, Some(x), parse)
            <==> rule.typeName == "string" && x.Str? && rule.format == Some(f)
                 && FormatMatches(JavaRegex, f, x.s) == Some(false)
  {
    assert CheckParam(name, rule, Some(x), parse) == TypeChecks(name, rule, x, parse) + EnumCheck(name, rule, x);
    if rule.typeName == "string" && x.Str? {
      var n := Utf16Length(x.s);
      var a := if rule.minLength.Some? && n < rule.minLength.value then [TooShort(name, rule.minLength.value)] else [];
      var b := if rule.maxLength.Some? && n > rule.maxLength.value then [TooLong(name, rule.maxLength.value)] else [];
      var c := if rule.format.Some? && FormatMatches(JavaRegex, rule.format.value, x.s) == Some(false)
               then [BadFormat(name, rule.format.value)] else [];
      assert TypeChecks(name, rule, x, parse) == a + b + c;
    }
  }

  /** With a non-empty enum list, a present value whose text is not listed
      is reported, and every listed value passes. */
  lemma EnumReported(name: string, rule: Rule, x: Value, parse: Parser)
    requires !(rule.required && IsMissing(Some(x)))
    ensures NotAllowed(name, rule.enumValues) in CheckParam(name, rule, Some(x), parse)
            <==> |rule.enumValues| > 0 && ValueText(x) !in rule.enumValues
  {
    assert CheckParam(name, rule, Some(x), parse) == TypeChecks(name, rule, x, parse) + EnumCheck(name, rule, x);
    TypeCheckKinds(name, rule, x, parse);
  }

  /** The type checks never report an enum violation. */
  lemma TypeCheckKinds(name: string, rule: Rule, x: Value, parse: Parser)
    ensures forall v :: v in TypeChecks(name, rule, x, parse) ==> !v.NotAllowed?
  {
    if !IsNumericType(rule.typeName) && rule.typeName == "string" && x.Str? {
      var n := Utf16Length(x.s);
      var a := if rule.minLength.Some? && n < rule.minLength.value then [TooShort(name, rule.minLength.value)] else [];
      var b := if rule.maxLength.Some? && n > rule.maxLength.value then [TooLong(name, rule.maxLength.value)] else [];
      var c := if rule.format.Some? && FormatMatches(JavaRegex, rule.format.value, x.s) == Some(false)
               then [BadFormat(name, rule.format.value)] else [];
      assert TypeChecks(name, rule, x, parse) == a + b + c;
    }
  }
}
