/** The declarative rule record both clients validate against, the
    violations the validators report, and the text of each report. */
module Rules {
  import opened Wrappers
  import opened Text

  /** One entry of a rule table: the declared type ("string", "integer",
      "number", ...), whether the parameter is required, optional numeric
      bounds, optional length bounds, an optional format name and the
      allowed values (empty when the rule has no enum constraint). Every
      bound the clients declare is a whole number, so bounds are ints. */
  datatype Rule = Rule(
    typeName: string,
    required: bool,
    min: Option<int>,
    max: Option<int>,
    minLength: Option<int>,
    maxLength: Option<int>,
    format: Option<string>,
    enumValues: seq<string>)

  /** A rule with only a type and the required flag set. */
  function Basic(typeName: string, required: bool): Rule
  {
    Rule(typeName, required, None, None, None, None, None, [])
  }

  /** An optional numeric rule bounded by [lo, hi]. */
  function Ranged(typeName: string, lo: int, hi: int): Rule
  {
    Rule(typeName, false, Some(lo), Some(hi), None, None, None, [])
  }

  predicate IsNumericType(typeName: string)
  {
    typeName == "integer" || typeName == "number"
  }

  /** One reported problem with one parameter. */
  datatype Violation =
    | Missing(param: string)
    | BelowMin(param: string, bound: int)
    | AboveMax(param: string, bound: int)
    | NotNumeric(param: string, typeName: string)
    | TooShort(param: string, length: int)
    | TooLong(param: string, length: int)
    | BadFormat(param: string, format: string)
    | NotAllowed(param: string, allowed: seq<string>)

  /** The violations among `vs` that concern parameter `name`. */
  function Named(vs: seq<Violation>, name: string): (r: seq<Violation>)
    ensures forall v :: v in r ==> v in vs && v.param == name
    ensures |r| <= |vs|
  {
    if vs == [] then []
    else (if vs[0].param == name then [vs[0]] else []) + Named(vs[1..], name)
  }

  lemma {:induction false} NamedAppend(a: seq<Violation>, b: seq<Violation>, name: string)
    ensures Named(a + b, name) == Named(a, name) + Named(b, name)
  {
    if a == [] {
      assert a + b == b;
    } else {
      assert (a + b)[1..] == a[1..] + b;
      NamedAppend(a[1..], b, name);
    }
  }

  /** Filtering on a name keeps everything when every violation has it. */
  lemma {:induction false} NamedAll(vs: seq<Violation>, name: string)
    requires forall v :: v in vs ==> v.param == name
    ensures Named(vs, name) == vs
  {
    if vs != [] {
      assert vs[0] in vs;
      assert forall v :: v in vs[1..] ==> v in vs;
      NamedAll(vs[1..], name);
      assert vs == [vs[0]] + vs[1..];
    }
  }

  /** Filtering on a name drops everything when no violation has it. */
  lemma {:induction false} NamedNone(vs: seq<Violation>, name: string)
    requires forall v :: v in vs ==> v.param != name
    ensures Named(vs, name) == []
  {
    if vs != [] {
      assert vs[0] in vs;
      assert forall v :: v in vs[1..] ==> v in vs;
      NamedNone(vs[1..], name);
    }
  }

  /** The bound as Java prints a Double holding a whole number below ten
      million: its digits followed by ".0". */
  function JavaBoundText(b: int): string
  {
    IntText(b) + ".0"
  }

  /** The bound as Go's `%v` prints a float64 holding a whole number below
      one million: its digits alone (from 1e6 on, `%v` switches to the
      exponent form). */
  function GoBoundText(b: int): string
  {
    IntText(b)
  }

  /** The report text; `boundText` renders a numeric bound in the client's
      own way, and everything else is common to both clients. */
  function MessageWith(v: Violation, boundText: int -> string): string
  {
    match v
    case Missing(p) => "Required parameter [" + p + "] is missing"
    case BelowMin(p, b) => "Parameter [" + p + "] must be at least " + boundText(b)
    case AboveMax(p, b) => "Parameter [" + p + "] must be at most " + boundText(b)
    case NotNumeric(p, t) => "Parameter [" + p + "] must be a valid " + t
    case TooShort(p, n) => "Parameter [" + p + "] must be at least " + IntText(n) + " characters"
    case TooLong(p, n) => "Parameter [" + p + "] must be at most " + IntText(n) + " characters"
    case BadFormat(p, f) => "Parameter [" + p + "] must be a valid " + f
    case NotAllowed(p, vals) => "Parameter [" + p + "] must be one of: " + Join(vals, ", ")
  }

  function JavaMessage(v: Violation): string { MessageWith(v, JavaBoundText) }

  /** `m` is `lead`, then `p`, then ']', then anything. */
  predicate Bracketed(m: string, lead: string, p: string)
  {
    && |m| > |lead| + |p|
    && m[..|lead|] == lead
    && m[|lead|..|lead| + |p|] == p
    && m[|lead| + |p|] == ']'
  }

  lemma BracketedBase(lead: string, p: string, rest: string)
    requires rest != [] && rest[0] == ']'
    ensures Bracketed(lead + p + rest, lead, p)
  {
    var m := lead + p + rest;
    assert m[..|lead|] == lead;
    assert m[|lead|..|lead| + |p|] == p;
  }

  lemma BracketedExtend(m: string, t: string, lead: string, p: string)
    requires Bracketed(m, lead, p)
    ensures Bracketed(m + t, lead, p)
  {
    assert (m + t)[..|lead|] == m[..|lead|];
    assert (m + t)[|lead|..|lead| + |p|] == m[|lead|..|lead| + |p|];
  }

  /** Every report names its parameter in square brackets right after a
      fixed lead-in. */
  lemma MessageNamesParam(v: Violation, boundText: int -> string)
    ensures Bracketed(MessageWith(v, boundText), if v.Missing? then "Required parameter [" else "Parameter [", v.param)
  {
    var lead := if v.Missing? then "Required parameter [" else "Parameter [";
    match v
    case Missing(p) =>
      BracketedBase(lead, p, "] is missing");
    case BelowMin(p, b) =>
      BracketedBase(lead, p, "] must be at least ");
      BracketedExtend(lead + p + "] must be at least ", boundText(b), lead, p);
    case AboveMax(p, b) =>
      BracketedBase(lead, p, "] must be at most ");
      BracketedExtend(lead + p + "] must be at most ", boundText(b), lead, p);
    case NotNumeric(p, t) =>
      BracketedBase(lead, p, "] must be a valid ");
      BracketedExtend(lead + p + "] must be a valid ", t, lead, p);
    case TooShort(p, n) =>
      var x := lead + p + "] must be at least ";
      BracketedBase(lead, p, "] must be at least ");
      BracketedExtend(x, IntText(n), lead, p);
      BracketedExtend(x + IntText(n), " characters", lead, p);
    case TooLong(p, n) =>
      var x := lead + p + "] must be at most ";
      BracketedBase(lead, p, "] must be at most ");
      BracketedExtend(x, IntText(n), lead, p);
      BracketedExtend(x + IntText(n), " characters", lead, p);
    case BadFormat(p, f) =>
      BracketedBase(lead, p, "] must be a valid ");
      BracketedExtend(lead + p + "] must be a valid ", f, lead, p);
    case NotAllowed(p, vals) =>
      BracketedBase(lead, p, "] must be one of: ");
      BracketedExtend(lead + p + "] must be one of: ", Join(vals, ", "), lead, p);
  }

  /** The report texts of a sequence of violations, in order. */
  function Messages(vs: seq<Violation>, boundText: int -> string): (r: seq<string>)
    ensures |r| == |vs|
  {
    if vs == [] then [] else [MessageWith(vs[0], boundText)] + Messages(vs[1..], boundText)
  }

  lemma {:induction false} MessagesAppend(a: seq<Violation>, b: seq<Violation>, boundText: int -> string)
    ensures Messages(a + b, boundText) == Messages(a, boundText) + Messages(b, boundText)
  {
    if a == [] {
      assert a + b == b;
    } else {
      assert (a + b)[1..] == a[1..] + b;
      MessagesAppend(a[1..], b, boundText);
    }
  }

  lemma OneMessage(v: Violation, boundText: int -> string)
    ensures Messages([v], boundText) == [MessageWith(v, boundText)]
  {
    assert [v][1..] == [];
  }

  lemma TwoMessages(v: Violation, w: Violation, boundText: int -> string)
    ensures Messages([v, w], boundText) == [MessageWith(v, boundText), MessageWith(w, boundText)]
  {
    assert [v, w][1..] == [w];
    OneMessage(w, boundText);
  }

  /** The message of a failed validation in both clients, Java's
      ValidationException and Go's ValidationError.Error(). */
  function FailureMessage(errors: seq<string>): string
  {
    "Validation failed: " + Join(errors, "; ")
  }

  lemma FailureMessageShape(errors: seq<string>)
    ensures var m := FailureMessage(errors);
            && m[..19] == "Validation failed: "
            && (|errors| == 1 ==> m == "Validation failed: " + errors[0])
            && (|errors| > 1 ==> m == FailureMessage(errors[..|errors| - 1]) + "; " + errors[|errors| - 1])
  {
    if |errors| > 1 {
      JoinSnoc(errors[..|errors| - 1], errors[|errors| - 1], "; ");
      assert errors[..|errors| - 1] + [errors[|errors| - 1]] == errors;
    }
  }
}
