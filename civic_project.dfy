/**
 * `CivicProject` (lib/civic_project.rb): its field table, its name
 * canonicaliser, and the rank lookups, case-insensitive type and status
 * tests, list export and three-key ordering that it adds to the record.
 */
module CivicProject {
  import opened Wrappers
  import opened Text
  import opened Validation
  import opened FieldStore

  /** `VALID_TYPES`, in the order that ranks projects. */
  const ValidTypes: seq<string> := [
    "web application",
    "mobile application",
    "desktop application",
    "website",
    "document",
    "web service",
    "dataset"
  ]

  /** `VALID_STATUSES`, in the order that ranks projects. */
  const ValidStatuses: seq<string> := [
    "deployed",
    "beta",
    "in development",
    "ideation",
    "archival"
  ]

  /** `FIELDS` */
  const Fields: Schema := [
    FieldSpec("KEY", Rule(true, ScalarKind, None, None)),
    FieldSpec("NAME", Rule(true, ScalarKind, None, None)),
    FieldSpec("DESCRIPTION", Rule(true, ScalarKind, None, Some(PeriodAtLineEnd))),
    FieldSpec("ACCESS_AT", Rule(false, ScalarKind, None, Some(UrlAtLineStart))),
    FieldSpec("PROJECT_AT", Rule(false, ScalarKind, None, Some(UrlAtLineStart))),
    FieldSpec("TYPE", Rule(true, ScalarKind, Some(ValidTypes), None)),
    FieldSpec("STATUS", Rule(true, ScalarKind, Some(ValidStatuses), None)),
    FieldSpec("CATEGORIES", Rule(false, ListKind, None, None)),
    FieldSpec("CONTACT", Rule(false, ScalarKind, None, None))
  ]

  const FieldNames: set<string> :=
    {"KEY", "NAME", "DESCRIPTION", "ACCESS_AT", "PROJECT_AT", "TYPE", "STATUS", "CATEGORIES", "CONTACT"}

  lemma NamesOfFields()
    ensures Names(Fields) == ["KEY", "NAME", "DESCRIPTION", "ACCESS_AT", "PROJECT_AT", "TYPE", "STATUS", "CATEGORIES", "CONTACT"]
  {
  }

  /** `canonicalize_key`: the upper-cased name, accepted exactly for the nine `FIELDS` keys. */
  function CanonicalizeKey(name: string): (r: Result<string, Error>)
    ensures r.Success? <==> Upcase(name) in FieldNames
    ensures r.Success? ==> r.value == Upcase(name)
    ensures r.Failure? ==> r.error == UnknownField(name)
  {
    NamesOfFields();
    Canonicalize(Fields, name)
  }


  lemma CanonicalizeKeyExamples()
    ensures CanonicalizeKey("description") == Success("DESCRIPTION")
    ensures CanonicalizeKey("DESCRIPTION") == Success("DESCRIPTION")
  {
    assert Upcase("description") == "DESCRIPTION";
    assert Upcase("DESCRIPTION") == "DESCRIPTION";
  }

  lemma CanonicalizeKeyRejects()
    ensures CanonicalizeKey("CUPCAKES") == Failure(UnknownField("CUPCAKES"))
  {
  }

  // ---------------------------------------------------------------------------
  // Ranks

  /** `Array#find_index`: the first position from i on whose element equals v. */
  function IndexOf(xs: seq<string>, v: Value, i: nat): (r: Option<nat>)
    requires i <= |xs|
    ensures r.Some? ==> i <= r.value < |xs| && v == Str(xs[r.value])
    ensures r.Some? ==> forall j :: i <= j < r.value ==> v != Str(xs[j])
    ensures r.None? ==> forall j :: i <= j < |xs| ==> v != Str(xs[j])
    decreases |xs| - i
  {
    if i == |xs| then None
    else if v == Str(xs[i]) then Some(i)
    else IndexOf(xs, v, i + 1)
  }

  /** `type_index`: the position of the stored TYPE in `VALID_TYPES`, if any. */
  function TypeIndex(st: Store): (r: Option<nat>)
    ensures r.Some? ==> r.value < |ValidTypes| && Lookup(st, "TYPE") == Str(ValidTypes[r.value])
    ensures r.None? <==> forall t :: t in ValidTypes ==> Lookup(st, "TYPE") != Str(t)
  {
    IndexOf(ValidTypes, Lookup(st, "TYPE"), 0)
  }

  /** `status_index`: the position of the stored STATUS in `VALID_STATUSES`, if any. */
  function StatusIndex(st: Store): (r: Option<nat>)
    ensures r.Some? ==> r.value < |ValidStatuses| && Lookup(st, "STATUS") == Str(ValidStatuses[r.value])
    ensures r.None? <==> forall t :: t in ValidStatuses ==> Lookup(st, "STATUS") != Str(t)
  {
    IndexOf(ValidStatuses, Lookup(st, "STATUS"), 0)
  }

  /** A stored TYPE listed at position i of `VALID_TYPES` has index i (the list has no repeats). */
  lemma TypeIndexOf(st: Store, i: nat)
    requires i < |ValidTypes| && Lookup(st, "TYPE") == Str(ValidTypes[i])
    ensures TypeIndex(st) == Some(i)
  {
    assert Distinct(ValidTypes);
  }

  /** The rank `<=>` uses: the index, or 9999 when there is none, so unlisted types sort last. */
  function TypeRank(st: Store): (r: nat)
    ensures r < |ValidTypes| <==> TypeIndex(st).Some?
    ensures r < |ValidTypes| ==> Lookup(st, "TYPE") == Str(ValidTypes[r])
    ensures r >= |ValidTypes| ==> r == 9999
  {
    match TypeIndex(st)
    case Some(i) => i
    case None => 9999
  }

  function StatusRank(st: Store): (r: nat)
    ensures r < |ValidStatuses| <==> StatusIndex(st).Some?
    ensures r < |ValidStatuses| ==> Lookup(st, "STATUS") == Str(ValidStatuses[r])
    ensures r >= |ValidStatuses| ==> r == 9999
  {
    match StatusIndex(st)
    case Some(i) => i
    case None => 9999
  }

  /** `is_type?(type)`: the stored TYPE equals the argument down-cased. */
  function IsType(st: Store, t: string): (b: bool)
    ensures b <==> && Lookup(st, "TYPE").Str? && |Lookup(st, "TYPE").s| == |t|
                   && forall i :: 0 <= i < |t| ==> Lookup(st, "TYPE").s[i] == LowerChar(t[i])
  {
    Lookup(st, "TYPE") == Str(Downcase(t))
  }

  /** `is_status?(status)`: the stored STATUS equals the argument down-cased. */
  function IsStatus(st: Store, s: string): (b: bool)
    ensures b <==> && Lookup(st, "STATUS").Str? && |Lookup(st, "STATUS").s| == |s|
                   && forall i :: 0 <= i < |s| ==> Lookup(st, "STATUS").s[i] == LowerChar(s[i])
  {
    Lookup(st, "STATUS") == Str(Downcase(s))
  }

  /** `is_type?` and `is_status?` do not depend on the case of their argument. */
  lemma IsTypeIgnoresCase(st: Store, t: string)
    ensures IsType(st, Upcase(t)) == IsType(st, t)
    ensures IsStatus(st, Upcase(t)) == IsStatus(st, t)
  {
    DowncaseUpcase(t);
  }

  /** A type test that holds names a ranked type exactly when its down-cased argument is in `VALID_TYPES`. */
  lemma IsTypeRank(st: Store, t: string)
    requires IsType(st, t)
    ensures TypeIndex(st).Some? <==> Downcase(t) in ValidTypes
    ensures TypeIndex(st).Some? ==> ValidTypes[TypeIndex(st).value] == Downcase(t)
  {
  }

  // ---------------------------------------------------------------------------
  // to_list

  /** `to_list`: the stored pairs in store order, names down-cased. */
  function ToList(st: Store): (l: seq<(string, Value)>)
    ensures |l| == |st|
    ensures forall i :: 0 <= i < |st| ==> l[i].0 == Downcase(st[i].name) && l[i].1 == st[i].value
  {
    if st == [] then [] else [(Downcase(st[0].name), st[0].value)] + ToList(st[1..])
  }

  /** The names `to_list` shows, in order. */
  function ListedNames(l: seq<(string, Value)>): (ns: seq<string>)
    ensures |ns| == |l|
    ensures forall i :: 0 <= i < |l| ==> ns[i] == l[i].0
  {
    if l == [] then [] else [l[0].0] + ListedNames(l[1..])
  }

  /**
   * Re-assigning a field keeps its place in `to_list`; a first assignment
   * adds it at the end.
   */
  lemma ToListAfterPut(st: Store, k: string, v: Value)
    ensures k in Keys(st) ==> ListedNames(ToList(Put(st, k, v))) == ListedNames(ToList(st))
    ensures k !in Keys(st) ==> ListedNames(ToList(Put(st, k, v))) == ListedNames(ToList(st)) + [Downcase(k)]
  {
    PutKeys(st, k, v);
    var after := Put(st, k, v);
    assert forall i :: 0 <= i < |after| ==> after[i].name == Keys(after)[i];
    assert forall i :: 0 <= i < |st| ==> st[i].name == Keys(st)[i];
  }

  // ---------------------------------------------------------------------------
  // <=>

  /** Integer `<=>`. */
  function Sign(a: int, b: int): (c: int)
    ensures c == -1 || c == 0 || c == 1
    ensures c < 0 <==> a < b
    ensures c == 0 <==> a == b
  {
    if a < b then -1 else if a > b then 1 else 0
  }

  /** NAME holds a string, as in every constructed record, so names can be compared. */
  predicate HasName(st: Store) {
    Lookup(st, "NAME").Str?
  }

  /** `<=>`: type rank, then status rank, then NAME. */
  function Compare(a: Store, b: Store): (c: int)
    requires HasName(a) && HasName(b)
    ensures c == -1 || c == 0 || c == 1
    ensures TypeRank(a) < TypeRank(b) ==> c == -1
    ensures TypeRank(a) == TypeRank(b) && StatusRank(a) < StatusRank(b) ==> c == -1
    ensures TypeRank(a) == TypeRank(b) && StatusRank(a) == StatusRank(b) ==>
              c == CompareStrings(Lookup(a, "NAME").s, Lookup(b, "NAME").s)
  {
    var byType := Sign(TypeRank(a), TypeRank(b));
    if byType != 0 then byType
    else
      var byStatus := Sign(StatusRank(a), StatusRank(b));
      if byStatus != 0 then byStatus
      else CompareStrings(Lookup(a, "NAME").s, Lookup(b, "NAME").s)
  }

  /** A record compares equal to itself. */
  lemma CompareReflexive(a: Store)
    requires HasName(a)
    ensures Compare(a, a) == 0
  {
  }

  /** Swapping the operands negates the result. */
  lemma CompareAntisymmetric(a: Store, b: Store)
    requires HasName(a) && HasName(b)
    ensures Compare(b, a) == -Compare(a, b)
  {
    CompareStringsAntisymmetric(Lookup(a, "NAME").s, Lookup(b, "NAME").s);
  }

  /** The ordering is transitive, so sorting by it is well defined. */
  lemma CompareTransitive(a: Store, b: Store, c: Store)
    requires HasName(a) && HasName(b) && HasName(c)
    requires Compare(a, b) <= 0 && Compare(b, c) <= 0
    ensures Compare(a, c) <= 0
  {
    if TypeRank(a) == TypeRank(b) == TypeRank(c) && StatusRank(a) == StatusRank(b) == StatusRank(c) {
      CompareStringsTransitive(Lookup(a, "NAME").s, Lookup(b, "NAME").s, Lookup(c, "NAME").s);
    }
  }

  /** A web application sorts before a dataset whatever the statuses and names. */
  lemma WebApplicationBeforeDataset(a: Store, b: Store)
    requires HasName(a) && HasName(b)
    requires Lookup(a, "TYPE") == Str("web application") && Lookup(b, "TYPE") == Str("dataset")
    ensures Compare(a, b) == -1 && Compare(b, a) == 1
  {
    TypeIndexOf(a, 0);
    TypeIndexOf(b, 6);
    CompareAntisymmetric(a, b);
  }

  /** With type and status equal, "aaaa" sorts before "bbbb". */
  lemma NameBreaksTies(a: Store, b: Store)
    requires Lookup(a, "NAME") == Str("aaaa") && Lookup(b, "NAME") == Str("bbbb")
    requires Lookup(a, "TYPE") == Lookup(b, "TYPE") && Lookup(a, "STATUS") == Lookup(b, "STATUS")
    ensures Compare(a, b) == -1 && Compare(b, a) == 1
  {
    CompareStringsAntisymmetric("aaaa", "bbbb");
  }

  // ---------------------------------------------------------------------------
  // Construction

  /** The rules `FIELDS` gives the keys the project's own methods read. */
  lemma FieldRules()
    ensures "NAME" in Names(Fields) && RuleOf(Fields, "NAME") == Rule(true, ScalarKind, None, None)
    ensures "DESCRIPTION" in Names(Fields) && RuleOf(Fields, "DESCRIPTION") == Rule(true, ScalarKind, None, Some(PeriodAtLineEnd))
    ensures "TYPE" in Names(Fields) && RuleOf(Fields, "TYPE") == Rule(true, ScalarKind, Some(ValidTypes), None)
    ensures "STATUS" in Names(Fields) && RuleOf(Fields, "STATUS") == Rule(true, ScalarKind, Some(ValidStatuses), None)
  {
    RuleOfAt(Fields, 1, "NAME");
    RuleOfAt(Fields, 2, "DESCRIPTION");
    RuleOfAt(Fields, 5, "TYPE");
    RuleOfAt(Fields, 6, "STATUS");
  }

  lemma LinkRules()
    ensures "ACCESS_AT" in Names(Fields) && RuleOf(Fields, "ACCESS_AT") == Rule(false, ScalarKind, None, Some(UrlAtLineStart))
    ensures "PROJECT_AT" in Names(Fields) && RuleOf(Fields, "PROJECT_AT") == Rule(false, ScalarKind, None, Some(UrlAtLineStart))
  {
    RuleOfAt(Fields, 3, "ACCESS_AT");
    RuleOfAt(Fields, 4, "PROJECT_AT");
  }

  /** A non-empty DESCRIPTION is stored exactly when some '.' in it ends a line. */
  lemma DescriptionNeedsPeriod(name: string, s: string)
    requires Upcase(name) == "DESCRIPTION" && s != ""
    ensures WriteOk(Fields, Entry(name, Str(s))) <==> exists j :: PeriodAt(s, j)
    ensures !WriteOk(Fields, Entry(name, Str(s))) ==> CheckWrite(Fields, name, Str(s)) == Failure(Invalid(name, FormatMismatch))
  {
    FieldRules();
    assert PeriodFrom(s, 0) <==> exists j :: 0 <= j && PeriodAt(s, j);
  }

  /** A non-empty ACCESS_AT or PROJECT_AT is stored exactly when one of its lines starts with http:// or https://. */
  lemma LinkNeedsUrl(name: string, s: string)
    requires (Upcase(name) == "ACCESS_AT" || Upcase(name) == "PROJECT_AT") && s != ""
    ensures WriteOk(Fields, Entry(name, Str(s))) <==> exists j :: UrlAt(s, j)
    ensures !WriteOk(Fields, Entry(name, Str(s))) ==> CheckWrite(Fields, name, Str(s)) == Failure(Invalid(name, FormatMismatch))
  {
    LinkRules();
    assert UrlFrom(s, 0) <==> exists j :: 0 <= j && UrlAt(s, j);
  }

  /** KEY, NAME, DESCRIPTION, TYPE and STATUS, the keys `FIELDS` marks required, hold non-empty values. */
  predicate RequiredFilled(st: Store) {
    && !IsEmpty(Lookup(st, "KEY"))
    && !IsEmpty(Lookup(st, "NAME"))
    && !IsEmpty(Lookup(st, "DESCRIPTION"))
    && !IsEmpty(Lookup(st, "TYPE"))
    && !IsEmpty(Lookup(st, "STATUS"))
  }

  /** A write `[]=` accepts never empties a required field. */
  lemma SetKeepsRequired(st: Store, name: string, v: Value)
    requires RequiredFilled(st)
    requires CheckWrite(Fields, name, v).Success?
    ensures RequiredFilled(Put(st, Upcase(name), v))
  {
    FieldRules();
    RuleOfAt(Fields, 0, "KEY");
    PutLookup(st, Upcase(name), v, "KEY");
    PutLookup(st, Upcase(name), v, "NAME");
    PutLookup(st, Upcase(name), v, "DESCRIPTION");
    PutLookup(st, Upcase(name), v, "TYPE");
    PutLookup(st, Upcase(name), v, "STATUS");
  }

  lemma ConstructedKeyFilled(params: seq<Entry>)
    requires Build(Fields, params).Success?
    ensures !IsEmpty(Lookup(Build(Fields, params).value, "KEY"))
  {
    BuildRequired(Fields, params, 0);
  }

  lemma ConstructedNameFilled(params: seq<Entry>)
    requires Build(Fields, params).Success?
    ensures !IsEmpty(Lookup(Build(Fields, params).value, "NAME"))
  {
    BuildRequired(Fields, params, 1);
  }

  lemma ConstructedDescriptionFilled(params: seq<Entry>)
    requires Build(Fields, params).Success?
    ensures !IsEmpty(Lookup(Build(Fields, params).value, "DESCRIPTION"))
  {
    BuildRequired(Fields, params, 2);
  }

  lemma ConstructedTypeFilled(params: seq<Entry>)
    requires Build(Fields, params).Success?
    ensures !IsEmpty(Lookup(Build(Fields, params).value, "TYPE"))
  {
    BuildRequired(Fields, params, 5);
  }

  lemma ConstructedStatusFilled(params: seq<Entry>)
    requires Build(Fields, params).Success?
    ensures !IsEmpty(Lookup(Build(Fields, params).value, "STATUS"))
  {
    BuildRequired(Fields, params, 6);
  }

  /** Every required key of `FIELDS` is non-empty in a constructed project, and every stored value passes its rule. */
  lemma ConstructedRequired(params: seq<Entry>)
    requires Build(Fields, params).Success?
    ensures StoreValid(Fields, Build(Fields, params).value)
    ensures RequiredFilled(Build(Fields, params).value)
  {
    BuildSound(Fields, params);
    ConstructedKeyFilled(params);
    ConstructedNameFilled(params);
    ConstructedDescriptionFilled(params);
    ConstructedTypeFilled(params);
    ConstructedStatusFilled(params);
  }

  /**
   * In a valid store with the required keys filled, NAME is a string, TYPE
   * and STATUS are ranked and DESCRIPTION has a line ending in a period.
   */
  lemma ValidProjectRanked(st: Store)
    requires StoreValid(Fields, st) && RequiredFilled(st)
    ensures HasName(st)
    ensures TypeIndex(st).Some? && StatusIndex(st).Some?
    ensures Matches(PeriodAtLineEnd, Lookup(st, "DESCRIPTION"))
  {
    FieldRules();
    LookupValid(Fields, st, "NAME");
    LookupValid(Fields, st, "DESCRIPTION");
    LookupValid(Fields, st, "TYPE");
    LookupValid(Fields, st, "STATUS");
    var t := Lookup(st, "TYPE");
    assert t.Str? && t.s in ValidTypes;
    var s := Lookup(st, "STATUS");
    assert s.Str? && s.s in ValidStatuses;
  }

  /** A status outside `VALID_STATUSES`, such as "cupcakes", makes construction fail. */
  lemma BadStatusRejected(params: seq<Entry>, i: nat)
    requires i < |params| && Upcase(params[i].name) == "STATUS"
    requires params[i].value == Str("cupcakes")
    ensures Build(Fields, params).Failure?
  {
    FieldRules();
    assert "cupcakes" !in ValidStatuses;
    assert !WriteOk(Fields, params[i]);
    BuildSucceedsIff(Fields, params);
  }

  /** A missing or emptied KEY (for instance `"key" => nil` written last) makes construction fail. */
  lemma MissingKeyRejected(params: seq<Entry>)
    requires IsEmpty(LastWrite(params, "KEY"))
    ensures Build(Fields, params).Failure?
  {
    BuildSucceedsIff(Fields, params);
    assert Fields[0].name == "KEY";
  }
}
