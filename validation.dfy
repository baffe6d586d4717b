/**
 * The field table and the generic validator shared by `CivicProject`
 * (lib/civic_project.rb) and `AFPD::Project` (lib/afpd.rb): field rules,
 * name canonicalisation and the staged `validate_value!`.
 */
module Validation {
  import opened Wrappers
  import opened Text

  /** The `:TYPE` of a rule. Every rule of both tables has one. */
  datatype Kind = ScalarKind | ListKind

  /** The two `:MATCHES` regular expressions that occur in the tables. */
  datatype Format =
    | UrlAtLineStart      // %r{^https?://}
    | PeriodAtLineEnd     // %r{\.$}

  /** One row of the field table. */
  datatype Rule = Rule(required: bool, kind: Kind, values: Option<seq<string>>, format: Option<Format>)

  /** A field value: nil, a string, or a list of strings. */
  datatype Value = Nil | Str(s: string) | List(items: seq<string>)

  /** Why `validate_value!` rejected a value, one constructor per raising stage. */
  datatype Reason =
    | EmptyValue            // "value cannot be empty"
    | ScalarRequired        // "scalar value required"
    | ListRequired          // "list value required"
    | NotAllowed(item: string)  // "value ... not allowed"
    | FormatMismatch        // "value ... does not match expected format"

  /** `ValidationError` (and the store being frozen), with the field name it is reported for. */
  datatype Error =
    | UnknownField(name: string)               // canonicalize_key
    | Invalid(field: string, reason: Reason)   // []= re-raises with " for field <name>"
    | MissingRequired(field: string)           // constructor's audit of required fields
    | FrozenStore                              // write after to_h froze the hash

  datatype FieldSpec = FieldSpec(name: string, rule: Rule)

  /** The ordered field table (`FIELDS` / `VALIDATIONS`). */
  type Schema = seq<FieldSpec>

  function Names(schema: Schema): (ns: seq<string>)
    ensures |ns| == |schema|
    ensures forall i :: 0 <= i < |schema| ==> ns[i] == schema[i].name
  {
    seq(|schema|, i requires 0 <= i < |schema| => schema[i].name)
  }

  /** The rule of the first table row named `k`. */
  function RuleOf(schema: Schema, k: string): Rule
    requires k in Names(schema)
  {
    RuleFrom(schema, k, 0)
  }

  function RuleFrom(schema: Schema, k: string, i: nat): Rule
    requires i < |schema| && k in Names(schema)[i..]
    decreases |schema| - i
  {
    if schema[i].name == k then schema[i].rule
    else
      assert Names(schema)[i..] == [schema[i].name] + Names(schema)[i + 1..];
      RuleFrom(schema, k, i + 1)
  }

  /** From row j on, the first row named k supplies `RuleFrom`'s rule. */
  lemma {:induction false} RuleFromAt(schema: Schema, k: string, j: nat, i: nat)
    requires j <= i < |schema| && schema[i].name == k
    requires forall m :: j <= m < i ==> schema[m].name != k
    ensures k in Names(schema)[j..] && RuleFrom(schema, k, j) == schema[i].rule
    decreases i - j
  {
    assert Names(schema)[j..][i - j] == k;
    if j < i {
      RuleFromAt(schema, k, j + 1, i);
    }
  }

  /** The rule of the first row named k is the one `RuleOf` finds. */
  lemma RuleOfAt(schema: Schema, i: nat, k: string)
    requires i < |schema| && schema[i].name == k
    requires forall j :: 0 <= j < i ==> schema[j].name != k
    ensures k in Names(schema) && RuleOf(schema, k) == schema[i].rule
  {
    RuleFromAt(schema, k, 0, i);
    assert Names(schema)[0..] == Names(schema);
  }

  /** `canonicalize_key`: upper-case the name; it must be a key of the table. */
  function Canonicalize(schema: Schema, name: string): (r: Result<string, Error>)
    ensures r.Success? <==> Upcase(name) in Names(schema)
    ensures r.Success? ==> r.value == Upcase(name) && r.value in Names(schema)
    ensures r.Failure? ==> r.error == UnknownField(name)
  {
    var key := Upcase(name);
    if key in Names(schema) then Success(key) else Failure(UnknownField(name))
  }

  /** Canonicalising a canonical key gives the same key back. */
  lemma CanonicalizeIdempotent(schema: Schema, name: string)
    requires Canonicalize(schema, name).Success?
    ensures Canonicalize(schema, Canonicalize(schema, name).value) == Canonicalize(schema, name)
  {
    UpcaseIdempotent(name);
  }

  // ---------------------------------------------------------------------------
  // Values

  /** `value.nil? || value.empty?`: the empty values are exactly nil, "" and []. */
  function IsEmpty(v: Value): (e: bool)
    ensures e <==> v in {Nil, Str(""), List([])}
  {
    v.Nil? || v == Str("") || v == List([])
  }

  /** The values a `:VALUES` check looks at: the list itself, or the scalar alone. */
  function Items(v: Value): seq<string> {
    match v
    case Nil => []
    case Str(s) => [s]
    case List(xs) => xs
  }

  /** `is_list_value`: only arrays are list-shaped; nil and strings are scalars. */
  function KindOf(v: Value): (k: Kind)
    ensures k == ListKind <==> v.List?
    ensures k == ScalarKind <==> v.Nil? || v.Str?
  {
    if v.List? then ListKind else ScalarKind
  }

  // ---------------------------------------------------------------------------
  // The two line-anchored formats. Ruby's `^` matches at index 0 and just after
  // each "\n"; `$` matches at the end of the string and just before each "\n".

  predicate HasScheme(t: string) {
    (|t| >= 7 && t[..7] == "http://") || (|t| >= 8 && t[..8] == "https://")
  }

  /** A line starting at index j begins with `http://` or `https://`. */
  predicate UrlAt(s: string, j: int) {
    0 <= j < |s| && (j == 0 || s[j - 1] == '\n') && HasScheme(s[j..])
  }

  /** The character at j is a '.' that ends a line. */
  predicate PeriodAt(s: string, j: int) {
    0 <= j < |s| && s[j] == '.' && (j + 1 == |s| || s[j + 1] == '\n')
  }

  /** Scan for `%r{^https?://}` from index i on. */
  function UrlFrom(s: string, i: nat): (found: bool)
    requires i <= |s|
    ensures found <==> exists j :: i <= j && UrlAt(s, j)
    decreases |s| - i
  {
    if i == |s| then false else UrlAt(s, i) || UrlFrom(s, i + 1)
  }

  /** Scan for `%r{\.$}` from index i on. */
  function PeriodFrom(s: string, i: nat): (found: bool)
    requires i <= |s|
    ensures found <==> exists j :: i <= j && PeriodAt(s, j)
    decreases |s| - i
  {
    if i == |s| then false else PeriodAt(s, i) || PeriodFrom(s, i + 1)
  }

  /**
   * `value =~ match_expr`. Only strings can match: for an array Ruby's `=~`
   * does not match, a case only a hand-built LIST rule with `:MATCHES` reaches.
   */
  function Matches(f: Format, v: Value): (m: bool)
    ensures m ==> v.Str?
    ensures v.Str? && f == UrlAtLineStart ==> (m <==> exists j :: UrlAt(v.s, j))
    ensures v.Str? && f == PeriodAtLineEnd ==> (m <==> exists j :: PeriodAt(v.s, j))
  {
    v.Str? &&
    match f
    case UrlAtLineStart => UrlFrom(v.s, 0)
    case PeriodAtLineEnd => PeriodFrom(v.s, 0)
  }

  /** A string that begins with a scheme has one at its first line. */
  lemma SchemeAtStart(scheme: string, rest: string)
    requires scheme == "http://" || scheme == "https://"
    ensures UrlAt(scheme + rest, 0)
  {
    assert (scheme + rest)[..|scheme|] == scheme;
  }

  /** A string with no newline has a URL line only if it starts with the scheme. */
  lemma NoUrlInOneLine(t: string)
    requires |t| > 0 && t[0] != 'h'
    requires forall k :: 0 <= k < |t| ==> t[k] != '\n'
    ensures !UrlFrom(t, 0)
  {
    forall j | 0 <= j < |t| ensures !UrlAt(t, j) {
      if j == 0 {
        assert |t| >= 7 ==> t[..7][0] != 'h';
        assert |t| >= 8 ==> t[..8][0] != 'h';
      } else {
        assert t[j - 1] != '\n';
      }
    }
  }

  /** `"http://example.com" =~ %r{^https?://}` matches; `"cupcakes"` does not. */
  lemma UrlExamples()
    ensures Matches(UrlAtLineStart, Str("http://example.com"))
    ensures !Matches(UrlAtLineStart, Str("cupcakes"))
  {
    assert "http://example.com" == "http://" + "example.com";
    SchemeAtStart("http://", "example.com");
    NoUrlInOneLine("cupcakes");
  }

  /** `^` also matches after a newline, but not in the middle of a line. */
  lemma UrlLineAnchorExamples()
    ensures Matches(UrlAtLineStart, Str("see below\nhttps://example.org"))
    ensures !Matches(UrlAtLineStart, Str("see http://example.org"))
  {
    var m := "see below\nhttps://example.org";
    assert m[10..] == "https://" + "example.org";
    SchemeAtStart("https://", "example.org");
    assert UrlAt(m, 10);
    NoUrlInOneLine("see http://example.org");
  }

  /** `%r{\.$}` matches a final period, or one that ends an inner line. */
  lemma PeriodExamples()
    ensures Matches(PeriodAtLineEnd, Str("This is a description of the project."))
    ensures Matches(PeriodAtLineEnd, Str("First line.\nsecond line"))
  {
    var d := "This is a description of the project.";
    assert PeriodAt(d, |d| - 1);
    assert PeriodAt("First line.\nsecond line", 10);
  }

  /** A period that ends no line does not match `%r{\.$}`. */
  lemma NoPeriodExamples()
    ensures !Matches(PeriodAtLineEnd, Str("description"))
    ensures !Matches(PeriodAtLineEnd, Str("v1.2 release"))
  {
    var e := "description";
    forall j | 0 <= j < |e| ensures !PeriodAt(e, j) { }
    var v := "v1.2 release";
    forall j | 0 <= j < |v| ensures !PeriodAt(v, j) { }
  }

  // ---------------------------------------------------------------------------
  // validate_value!

  /** Index of the first item not among `allowed`, scanning from i. */
  function FirstDisallowed(xs: seq<string>, allowed: seq<string>, i: nat): (r: Option<nat>)
    requires i <= |xs|
    ensures r.None? <==> forall j :: i <= j < |xs| ==> xs[j] in allowed
    ensures r.Some? ==> i <= r.value < |xs| && xs[r.value] !in allowed
    ensures r.Some? ==> forall j :: i <= j < r.value ==> xs[j] in allowed
    decreases |xs| - i
  {
    if i == |xs| then None
    else if xs[i] !in allowed then Some(i)
    else FirstDisallowed(xs, allowed, i + 1)
  }

  /** The declarative meaning of a rule: which values it admits. */
  predicate Admits(rule: Rule, v: Value) {
    if IsEmpty(v) then !rule.required
    else
      && KindOf(v) == rule.kind
      && (rule.values.Some? ==> forall x :: x in Items(v) ==> x in rule.values.value)
      && (rule.format.Some? ==> Matches(rule.format.value, v))
  }

  /**
   * `validate_value!`: emptiness, then kind, then allowed values, then format;
   * the first failing stage decides the error.
   */
  function Validate(v: Value, rule: Rule): (res: Outcome<Reason>)
    ensures res.Pass? <==> Admits(rule, v)
    ensures IsEmpty(v) ==> res == (if rule.required then Fail(EmptyValue) else Pass)
    ensures !IsEmpty(v) && rule.kind == ScalarKind && v.List? ==> res == Fail(ScalarRequired)
    ensures !IsEmpty(v) && rule.kind == ListKind && !v.List? ==> res == Fail(ListRequired)
    ensures res.Fail? && res.error.NotAllowed? ==>
              && KindOf(v) == rule.kind && rule.values.Some?
              && res.error.item in Items(v) && res.error.item !in rule.values.value
    ensures res == Fail(FormatMismatch) ==>
              && KindOf(v) == rule.kind && rule.format.Some?
              && (rule.values.Some? ==> forall x :: x in Items(v) ==> x in rule.values.value)
    ensures res == Fail(EmptyValue) ==> IsEmpty(v)
    ensures !IsEmpty(v) && KindOf(v) == rule.kind && rule.values.Some? ==>
              forall j :: 0 <= j < |Items(v)| && Items(v)[j] !in rule.values.value
                          && (forall j' :: 0 <= j' < j ==> Items(v)[j'] in rule.values.value) ==>
                 res == Fail(NotAllowed(Items(v)[j]))
    ensures && !IsEmpty(v) && KindOf(v) == rule.kind
            && (rule.values.Some? ==> forall x :: x in Items(v) ==> x in rule.values.value)
            && rule.format.Some? && !Matches(rule.format.value, v)
            ==> res == Fail(FormatMismatch)
  {
    if IsEmpty(v) then
      if rule.required then Fail(EmptyValue) else Pass
    else if rule.kind == ScalarKind && v.List? then Fail(ScalarRequired)
    else if rule.kind == ListKind && !v.List? then Fail(ListRequired)
    else
      var items := Items(v);
      var bad := if rule.values.Some? then FirstDisallowed(items, rule.values.value, 0) else None;
      if bad.Some? then Fail(NotAllowed(items[bad.value]))
      else if rule.format.Some? && !Matches(rule.format.value, v) then Fail(FormatMismatch)
      else Pass
  }

  /** A non-empty list meets a VALUES rule exactly when every element is a member, whatever its order. */
  lemma ListValuesExample()
    ensures Validate(List(["blue", "green", "red"]), Rule(false, ListKind, Some(["red", "green", "blue"]), None)) == Pass
    ensures Validate(List(["blue", "green", "cupcakes", "red"]), Rule(false, ListKind, Some(["red", "green", "blue"]), None))
            == Fail(NotAllowed("cupcakes"))
    ensures Validate(List([]), Rule(false, ListKind, Some(["red", "green", "blue"]), None)) == Pass
    ensures Validate(Str(""), Rule(false, ScalarKind, Some(["red", "green", "blue"]), None)) == Pass
  {
    var rgb := ["red", "green", "blue"];
    var xs := ["blue", "green", "cupcakes", "red"];
    assert xs[0] in rgb && xs[1] in rgb && xs[2] !in rgb;
    assert FirstDisallowed(xs, rgb, 0) == Some(2);
  }
}
