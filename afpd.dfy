/**
 * `AFPD::Project` (lib/afpd.rb): the same record as `CivicProject` checked
 * against its own table, `VALIDATIONS`. Only KEY, NAME and DESCRIPTION are
 * required, DESCRIPTION has no format, TYPE and STATUS are optional, and
 * CONTACTS is a list. The record itself is `Records.Record` with
 * `Validations` as its schema.
 */
module Afpd {
  import opened Wrappers
  import opened Text
  import opened Validation
  import opened FieldStore

  /** The :VALUES list of :TYPE. */
  const ProjectTypes: seq<string> := [
    "web application",
    "mobile application",
    "desktop application",
    "web service",
    "website",
    "dataset",
    "document"
  ]

  /** The :VALUES list of :STATUS. */
  const ProjectStatuses: seq<string> := [
    "ideation",
    "in development",
    "beta",
    "deployed",
    "archival"
  ]

  /** `VALIDATIONS` */
  const Validations: Schema := [
    FieldSpec("KEY", Rule(true, ScalarKind, None, None)),
    FieldSpec("NAME", Rule(true, ScalarKind, None, None)),
    FieldSpec("DESCRIPTION", Rule(true, ScalarKind, None, None)),
    FieldSpec("ACCESS_AT", Rule(false, ScalarKind, None, Some(UrlAtLineStart))),
    FieldSpec("PROJECT_AT", Rule(false, ScalarKind, None, Some(UrlAtLineStart))),
    FieldSpec("TYPE", Rule(false, ScalarKind, Some(ProjectTypes), None)),
    FieldSpec("STATUS", Rule(false, ScalarKind, Some(ProjectStatuses), None)),
    FieldSpec("CATEGORIES", Rule(false, ListKind, None, None)),
    FieldSpec("CONTACTS", Rule(false, ListKind, None, None))
  ]

  const KeyNames: set<string> :=
    {"KEY", "NAME", "DESCRIPTION", "ACCESS_AT", "PROJECT_AT", "TYPE", "STATUS", "CATEGORIES", "CONTACTS"}

  lemma NamesOfValidations()
    ensures Names(Validations) == ["KEY", "NAME", "DESCRIPTION", "ACCESS_AT", "PROJECT_AT", "TYPE", "STATUS", "CATEGORIES", "CONTACTS"]
  {
  }

  /** `Project.canonicalize_key`: the upper-cased name, accepted exactly for the nine `VALIDATIONS` keys. */
  function CanonicalizeKey(name: string): (r: Result<string, Error>)
    ensures r.Success? <==> Upcase(name) in KeyNames
    ensures r.Success? ==> r.value == Upcase(name)
    ensures r.Failure? ==> r.error == UnknownField(name)
  {
    NamesOfValidations();
    Canonicalize(Validations, name)
  }

  lemma CanonicalizeKeyDescription()
    ensures CanonicalizeKey("description") == Success("DESCRIPTION")
  {
    assert Upcase("description") == "DESCRIPTION";
  }

  lemma CanonicalizeKeyRejects()
    ensures CanonicalizeKey("CUPCAKES") == Failure(UnknownField("CUPCAKES"))
  {
    assert Upcase("CUPCAKES") == "CUPCAKES";
  }

  /** CONTACTS, a list, replaces the scalar CONTACT of `CivicProject`. */
  lemma ContactsNotContact()
    ensures CanonicalizeKey("contacts") == Success("CONTACTS")
    ensures CanonicalizeKey("CONTACT").Failure?
  {
    assert Upcase("contacts") == "CONTACTS";
    assert Upcase("CONTACT") == "CONTACT";
  }

  // ---------------------------------------------------------------------------
  // The table

  /** Exactly KEY, NAME and DESCRIPTION are required. */
  lemma OnlyIdentityRequired()
    ensures forall j :: 0 <= j < |Validations| ==> (Validations[j].rule.required <==> j < 3)
    ensures Validations[0].name == "KEY" && Validations[1].name == "NAME" && Validations[2].name == "DESCRIPTION"
  {
  }

  /** Only ACCESS_AT and PROJECT_AT carry a :MATCHES format, and it is the URL scheme at a line start. */
  lemma OnlyLinksFormatted()
    ensures forall j :: 0 <= j < |Validations| ==> (Validations[j].rule.format.Some? <==> j == 3 || j == 4)
    ensures forall j :: 0 <= j < |Validations| && Validations[j].rule.format.Some? ==>
              Validations[j].rule.format.value == UrlAtLineStart
    ensures Validations[3].name == "ACCESS_AT" && Validations[4].name == "PROJECT_AT"
  {
  }

  /** The rules the examples below rely on. */
  lemma DescriptionRule()
    ensures "DESCRIPTION" in Names(Validations) && RuleOf(Validations, "DESCRIPTION") == Rule(true, ScalarKind, None, None)
  {
    RuleOfAt(Validations, 2, "DESCRIPTION");
  }

  lemma StatusRule()
    ensures "STATUS" in Names(Validations) && RuleOf(Validations, "STATUS") == Rule(false, ScalarKind, Some(ProjectStatuses), None)
  {
    RuleOfAt(Validations, 6, "STATUS");
  }

  lemma CollectionRules()
    ensures "CATEGORIES" in Names(Validations) && RuleOf(Validations, "CATEGORIES") == Rule(false, ListKind, None, None)
    ensures "CONTACTS" in Names(Validations) && RuleOf(Validations, "CONTACTS") == Rule(false, ListKind, None, None)
  {
    RuleOfAt(Validations, 7, "CATEGORIES");
    RuleOfAt(Validations, 8, "CONTACTS");
  }

  // ---------------------------------------------------------------------------
  // Writes

  /** Any non-empty string is a DESCRIPTION here: the table has no period format. */
  lemma DescriptionAnyText(name: string, s: string)
    requires Upcase(name) == "DESCRIPTION"
    ensures WriteOk(Validations, Entry(name, Str(s))) <==> s != ""
  {
    DescriptionRule();
  }

  /**
   * A non-empty string written to CATEGORIES or CONTACTS is refused as not a
   * list; `[]=` does not wrap it in an array.
   */
  lemma ScalarCollectionRejected(name: string, s: string)
    requires Upcase(name) == "CATEGORIES" || Upcase(name) == "CONTACTS"
    requires s != ""
    ensures CheckWrite(Validations, name, Str(s)) == Failure(Invalid(name, ListRequired))
  {
    CollectionRules();
  }

  /** A STATUS outside the :VALUES list is refused, naming the offending value. */
  lemma UnknownStatusRejected(name: string, s: string)
    requires Upcase(name) == "STATUS"
    requires s != "" && s !in ProjectStatuses
    ensures CheckWrite(Validations, name, Str(s)) == Failure(Invalid(name, NotAllowed(s)))
  {
    StatusRule();
  }

  // ---------------------------------------------------------------------------
  // Construction

  /** A status such as "cupcakes" makes construction fail. */
  lemma BadStatusRejected(params: seq<Entry>, i: nat)
    requires i < |params| && Upcase(params[i].name) == "STATUS"
    requires params[i].value == Str("cupcakes")
    ensures Build(Validations, params).Failure?
  {
    StatusRule();
    assert "cupcakes" !in ProjectStatuses;
    assert !WriteOk(Validations, params[i]);
    BuildSucceedsIff(Validations, params);
  }

  /** Leaving KEY, NAME or DESCRIPTION out, or writing it empty last, makes construction fail. */
  lemma MissingIdentityRejected(params: seq<Entry>)
    requires IsEmpty(LastWrite(params, "KEY")) || IsEmpty(LastWrite(params, "NAME"))
          || IsEmpty(LastWrite(params, "DESCRIPTION"))
    ensures Build(Validations, params).Failure?
  {
    OnlyIdentityRequired();
    BuildSucceedsIff(Validations, params);
  }

  // ---------------------------------------------------------------------------
  // A minimal project: key, name and description only

  lemma KeyWriteAccepted(k: string)
    requires k != ""
    ensures CheckWrite(Validations, "key", Str(k)) == Success("KEY")
  {
    assert Upcase("key") == "KEY";
    RuleOfAt(Validations, 0, "KEY");
  }

  lemma NameWriteAccepted(n: string)
    requires n != ""
    ensures CheckWrite(Validations, "name", Str(n)) == Success("NAME")
  {
    assert Upcase("name") == "NAME";
    RuleOfAt(Validations, 1, "NAME");
  }

  lemma DescriptionWriteAccepted(d: string)
    requires d != ""
    ensures CheckWrite(Validations, "description", Str(d)) == Success("DESCRIPTION")
  {
    assert Upcase("description") == "DESCRIPTION";
    DescriptionRule();
  }

  /** The writes land under their canonical keys, in the order given. */
  lemma ReplayKeyName(k: string, n: string)
    requires k != "" && n != ""
    ensures Replay(Validations, [Entry("key", Str(k)), Entry("name", Str(n))]) ==
            Success([Entry("KEY", Str(k)), Entry("NAME", Str(n))])
  {
    var kw, nw := Entry("key", Str(k)), Entry("name", Str(n));
    KeyWriteAccepted(k);
    NameWriteAccepted(n);
    assert Upcase(kw.name) == "KEY" && Upcase(nw.name) == "NAME";
    assert Replay(Validations, []) == Success([]);
    ReplayAppend(Validations, [], kw, []);
    assert [] + [kw] == [kw];
    var st1 := [Entry("KEY", Str(k))];
    assert Put([], "KEY", Str(k)) == st1;
    assert Replay(Validations, [kw]) == Success(st1);
    ReplayAppend(Validations, [kw], nw, st1);
    PutAppends(st1, "NAME", Str(n));
    assert st1 + [Entry("NAME", Str(n))] == [Entry("KEY", Str(k)), Entry("NAME", Str(n))];
    assert [kw] + [nw] == [kw, nw];
  }

  lemma ReplayMinimal(k: string, n: string, d: string)
    requires k != "" && n != "" && d != ""
    ensures Replay(Validations, [Entry("key", Str(k)), Entry("name", Str(n)), Entry("description", Str(d))]) ==
            Success([Entry("KEY", Str(k)), Entry("NAME", Str(n)), Entry("DESCRIPTION", Str(d))])
  {
    var kw, nw, dw := Entry("key", Str(k)), Entry("name", Str(n)), Entry("description", Str(d));
    ReplayKeyName(k, n);
    DescriptionWriteAccepted(d);
    assert Upcase("description") == "DESCRIPTION";
    var st2 := [Entry("KEY", Str(k)), Entry("NAME", Str(n))];
    ReplayAppend(Validations, [kw, nw], dw, st2);
    assert Keys(st2) == ["KEY", "NAME"];
    PutAppends(st2, "DESCRIPTION", Str(d));
    assert st2 + [Entry("DESCRIPTION", Str(d))] == [Entry("KEY", Str(k)), Entry("NAME", Str(n)), Entry("DESCRIPTION", Str(d))];
    assert [kw, nw] + [dw] == [kw, nw, dw];
  }

  /** Without a description the required-field pass stops at DESCRIPTION. */
  lemma AuditKeyName(k: string, n: string)
    requires k != "" && n != ""
    ensures Audit(Validations, [Entry("KEY", Str(k)), Entry("NAME", Str(n))], 0) == Fail(MissingRequired("DESCRIPTION"))
  {
    var st2 := [Entry("KEY", Str(k)), Entry("NAME", Str(n))];
    assert Lookup(st2, "KEY") == Str(k);
    assert Lookup(st2, "NAME") == Str(n);
    assert Lookup(st2, "DESCRIPTION") == Nil;
    assert Audit(Validations, st2, 2) == Fail(MissingRequired("DESCRIPTION"));
    assert Audit(Validations, st2, 1) == Audit(Validations, st2, 2);
  }

  lemma NoDescriptionExample(k: string, n: string)
    requires k != "" && n != ""
    ensures Build(Validations, [Entry("key", Str(k)), Entry("name", Str(n))]) == Failure(MissingRequired("DESCRIPTION"))
  {
    ReplayKeyName(k, n);
    AuditKeyName(k, n);
    BuildFromReplay(Validations, [Entry("key", Str(k)), Entry("name", Str(n))], [Entry("KEY", Str(k)), Entry("NAME", Str(n))]);
  }

  /** The required-field pass of `Project.new` checks exactly KEY, NAME and DESCRIPTION. */
  lemma RequiredPassIff(st: Store)
    ensures Audit(Validations, st, 0) == Pass <==>
            !IsEmpty(Lookup(st, "KEY")) && !IsEmpty(Lookup(st, "NAME")) && !IsEmpty(Lookup(st, "DESCRIPTION"))
  {
    OnlyIdentityRequired();
  }

  /** With all three written, the required-field pass goes through. */
  lemma AuditMinimal(k: string, n: string, d: string)
    requires k != "" && n != "" && d != ""
    ensures Audit(Validations, [Entry("KEY", Str(k)), Entry("NAME", Str(n)), Entry("DESCRIPTION", Str(d))], 0) == Pass
  {
    var st3 := [Entry("KEY", Str(k)), Entry("NAME", Str(n)), Entry("DESCRIPTION", Str(d))];
    assert Lookup(st3, "KEY") == Str(k) && !IsEmpty(Str(k));
    assert Lookup(st3, "NAME") == Str(n) && !IsEmpty(Str(n));
    assert Lookup(st3, "DESCRIPTION") == Str(d) && !IsEmpty(Str(d));
    RequiredPassIff(st3);
  }

  /**
   * Key, name and description suffice; `to_h` then holds exactly those three
   * in write order, whatever the description's last character, and STATUS reads nil.
   */
  lemma MinimalProjectExample(k: string, n: string, d: string)
    requires k != "" && n != "" && d != ""
    ensures Build(Validations, [Entry("key", Str(k)), Entry("name", Str(n)), Entry("description", Str(d))]) ==
            Success([Entry("KEY", Str(k)), Entry("NAME", Str(n)), Entry("DESCRIPTION", Str(d))])
    ensures Lookup([Entry("KEY", Str(k)), Entry("NAME", Str(n)), Entry("DESCRIPTION", Str(d))], "STATUS") == Nil
  {
    var st3 := [Entry("KEY", Str(k)), Entry("NAME", Str(n)), Entry("DESCRIPTION", Str(d))];
    ReplayMinimal(k, n, d);
    AuditMinimal(k, n, d);
    BuildFromReplay(Validations, [Entry("key", Str(k)), Entry("name", Str(n)), Entry("description", Str(d))], st3);
    assert "STATUS" !in Keys(st3);
  }
}
