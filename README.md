# Civic_Project record validator in Dafny

This project models the record validator of the Civic_Project repository.
The validator appears twice: as `CivicProject` in `lib/civic_project.rb` and
as `AFPD::Project` in `lib/afpd.rb`. Both classes hold a hash of project
fields. They share four parts:

- **A fixed field table**: `FIELDS` for CivicProject, `VALIDATIONS` for
  AFPD. Each row gives a REQUIRED flag, a SCALAR/LIST kind, an optional
  allowed-values list and an optional line-anchored format.
- **A name canonicaliser**: it upcases a field name and rejects names that
  are not in the table.
- **A staged `validate_value!`**, checking emptiness, then kind, then
  allowed values, then format.
- **A mutable record.**
  - `[]=` canonicalises, validates and then stores.
  - `initialize` replays its parameters in order and then checks the
    required fields in table order.
  - `to_h` hands out the hash and freezes it.

`CivicProject` adds:

- rank lookups into `VALID_TYPES` and `VALID_STATUSES`;
- case-insensitive type and status tests;
- `to_list`;
- a three-key `<=>`: type rank, then status rank, then NAME.

Layout:

- `wrappers.dfy`: `Option`, `Result` and `Outcome`. A Ruby `raise` becomes a
  `Failure`/`Fail` value.
- `text.dfy`: ASCII `upcase`/`downcase`, and the byte-wise `String#<=>`.
- `validation.dfy`:
  - the datatypes `Rule`, `Value`, `Reason`, `Error` and `Schema`;
  - canonicalisation;
  - the two line-anchored formats. Each is an executable scan, proved equal
    to an existential definition;
  - `Validate`, proved equal to a declarative `Admits` and to the staged
    error order.
- `field_store.dfy`:
  - the Hash as a sequence of entries in first-insertion order, with
    `Lookup` and `Put`;
  - the invariant that every stored value passes its rule;
  - the constructor as the pure specification `Build`, defined as `Replay`
    followed by `Audit`, with its characterisation lemmas.
- `records.dfy`: the class `Record`, used for both Ruby classes. It has the
  field table as a constant, the store as a mutable `seq`, and a `frozen`
  flag. `Set` and `New` are proved against the functions of `field_store.dfy`.
- `civic_project.dfy`: `FIELDS`, `VALID_TYPES`, `VALID_STATUSES`, and the
  CivicProject-only operations and their properties.
- `afpd.dfy`: `VALIDATIONS` and the AFPD-specific consequences of its table.

## Model

| member | source | states |
|---|---|---|
| Text.Upcase | lib/civic_project.rb:80 | upcasing keeps the length, turns each ASCII lowercase letter into its capital, leaves every other character alone, and leaves no lowercase ASCII letter |
| Text.Downcase | lib/civic_project.rb:156-162 | downcasing keeps the length, turns each ASCII capital into its lowercase letter, leaves every other character alone, and leaves no ASCII capital |
| Text.UpcaseIdempotent | lib/civic_project.rb:80 | upcasing a name twice gives the same key as upcasing it once |
| Text.DowncaseUpcase | lib/civic_project.rb:156-162 | downcasing ignores a prior upcase, so `is_type?`/`is_status?` see the same argument in any letter case |
| Text.CompareStrings | lib/civic_project.rb:193 | `String#<=>` yields -1, 0 or 1: 0 exactly when the strings are equal, -1 exactly when the first is lexicographically smaller (`LexLess`: a proper prefix, or smaller at the first differing character) and 1 exactly when the second is |
| Text.LexLessHead | lib/civic_project.rb:193 | a smaller first character makes a string lexicographically smaller; a larger one rules that out |
| Text.LexLessTail | lib/civic_project.rb:193 | with equal first characters, the lexicographic order is that of the rests |
| Text.CompareStringsAntisymmetric | lib/civic_project.rb:193 | swapping the operands of `String#<=>` negates the result |
| Text.CompareStringsTransitive | lib/civic_project.rb:193 | `String#<=>` is transitive |
| Validation.RuleOfAt | lib/civic_project.rb:149 | `FIELDS[key]` is the rule of the row that carries the key |
| Validation.Canonicalize | lib/civic_project.rb:79-83 | succeeds exactly when the upcased name is a table key, returns that key, and otherwise reports the raw name as unknown |
| Validation.CanonicalizeIdempotent | lib/civic_project.rb:79-83 | a canonical key canonicalises to itself |
| Validation.IsEmpty | lib/civic_project.rb:99 | the values the `nil?`/`empty?` test accepts are exactly nil, "" and [] |
| Validation.KindOf | lib/civic_project.rb:105-116 | only arrays are list-shaped; nil and strings are scalars |
| Validation.Matches | lib/civic_project.rb:134-137 | a string matches the URL format exactly when some position starts a line with `http://` or `https://`, and the period format exactly when some '.' ends a line; a non-string never matches |
| Validation.UrlFrom | lib/civic_project.rb:33-34 | the scan for `%r{^https?://}` finds a match exactly when some line (index 0 or just after a newline) starts with `http://` or `https://` |
| Validation.PeriodFrom | lib/civic_project.rb:32 | the scan for `%r{\.$}` finds a match exactly when some '.' is followed by the end of the string or a newline |
| Validation.NoUrlInOneLine | lib/civic_project.rb:136 | a single-line string that does not begin with 'h' never matches the URL format |
| Validation.UrlExamples | spec/civic_project_spec.rb:167-178 | "http://example.com" matches the URL format and "cupcakes" does not |
| Validation.UrlLineAnchorExamples | lib/civic_project.rb:33 | `^` matches after a newline but not in the middle of a line |
| Validation.PeriodExamples | lib/civic_project.rb:32 | a final period, or a period that ends an inner line, matches `%r{\.$}` |
| Validation.NoPeriodExamples | lib/civic_project.rb:32 | "description" and "v1.2 release" do not match `%r{\.$}` |
| Validation.FirstDisallowed | lib/civic_project.rb:127-132 | the first item, in order, that is not in the allowed list; none exactly when every item is allowed |
| Validation.Validate | lib/civic_project.rb:97-139 | passes exactly when the rule admits the value. An empty value fails, with "cannot be empty", exactly under REQUIRED. Kind mismatches give the scalar/list errors before any other check. Otherwise the first item, in order, outside the values list is the one reported as not allowed. A value of the right kind whose items are all allowed and that misses the format fails with a format mismatch, and only such a value does |
| Validation.ListValuesExample | spec/civic_project_spec.rb:150-164 | a list whose elements are all allowed passes in any order; "cupcakes" in a list is reported as not allowed; an empty list or "" passes an optional rule |
| FieldStore.Lookup | lib/civic_project.rb:143 | a key never written reads nil; a key that is present reads the value stored with it |
| FieldStore.Put | lib/civic_project.rb:153 | `@fields[key] = value` grows the hash by one entry exactly when the key is new, and otherwise keeps its size |
| FieldStore.PutLookup | lib/civic_project.rb:153 | after `@fields[key] = value` the key reads the new value and every other key reads as before |
| FieldStore.PutKeys | lib/civic_project.rb:153 | re-assigning a key keeps the key order; a new key is appended at the end |
| FieldStore.PutAppends | lib/civic_project.rb:153 | storing a new key appends exactly one entry after the existing ones |
| FieldStore.PutEntries | lib/civic_project.rb:153 | storing adds no entry other than the one written |
| FieldStore.LookupValid | lib/civic_project.rb:141-144 | in a valid store every present field's value passes that field's rule |
| FieldStore.CheckWrite | lib/civic_project.rb:146-152 | `[]=` accepts exactly a known name whose value passes its rule, under the upcased key. An unknown name is reported as such. A rejected value carries the raw name and the validator's reason |
| FieldStore.PutPreservesValid | lib/civic_project.rb:146-154 | an accepted write keeps keys distinct and every stored value valid |
| FieldStore.Replay | lib/civic_project.rb:46-48 | the constructor's first loop never stores more fields than it was given parameters, and fails only with an unknown-field or invalid-value error |
| FieldStore.ReplayAppend | lib/civic_project.rb:46-48 | one more accepted parameter extends the replayed store by a put under its canonical key |
| FieldStore.ReplayValid | lib/civic_project.rb:46-48 | a replay that succeeds yields a valid store |
| FieldStore.ReplayLastWrite | lib/civic_project.rb:46-48 | after a successful replay each key holds its last written value (the last write wins) |
| FieldStore.ReplayExtend | lib/civic_project.rb:46-48 | the replay of the first i + 1 parameters is that of the first i followed by a put of parameter i, when it is accepted |
| FieldStore.ReplayStep | lib/civic_project.rb:46-48 | a replay succeeds exactly when the prefix succeeds and the last write is accepted |
| FieldStore.ReplaySucceedsIff | lib/civic_project.rb:46-48 | a replay succeeds exactly when every parameter is an accepted write |
| FieldStore.ReplayPrefixFailure | lib/civic_project.rb:46-48 | once a write fails, later parameters do not change the outcome |
| FieldStore.ReplayStopsAt | lib/civic_project.rb:46-48 | the first rejected parameter decides the constructor's error |
| FieldStore.Audit | lib/civic_project.rb:50-58 | the required-field pass succeeds exactly when every required row is filled; otherwise it reports the first required row, in table order, whose value is empty |
| FieldStore.Build | lib/civic_project.rb:44-59 | construction fails only with an unknown field, an invalid value or a missing required field |
| FieldStore.BuildFromReplayFailure | lib/civic_project.rb:46-48 | a rejected parameter aborts construction with its own error, before the required-field pass |
| FieldStore.BuildFromReplay | lib/civic_project.rb:44-59 | a completed replay hands its store to the required-field pass, which decides the result |
| FieldStore.BuildSucceedsIff | lib/civic_project.rb:44-59 | construction succeeds exactly when every write is accepted and every required field is last written non-empty |
| FieldStore.BuildSound | lib/civic_project.rb:44-59 | a constructed record is valid, its required fields are non-empty, and every field holds its last write (nil when never written) |
| FieldStore.BuildRequired | lib/civic_project.rb:50-58 | a required row's field is non-empty in a constructed record |
| Records.Record.Empty | lib/civic_project.rb:45 | a new record has an empty, unfrozen, valid store |
| Records.Record.Get | lib/civic_project.rb:141-144 | `[]` fails exactly for unknown names; otherwise it reads the stored value under the upcased key, nil when absent |
| Records.Record.Set | lib/civic_project.rb:146-154 | `[]=` succeeds exactly when the write is accepted and the store is not frozen. Validation errors come before the frozen error. Any failure leaves the store unchanged. On success the store is the put of the value, any casing of the name reads it back, other keys are unchanged, and key order is kept or extended by one. Validity is preserved |
| Records.Record.ToH | lib/civic_project.rb:172-174 | `to_h` returns the store itself and freezes it |
| Records.Record.ApplyWrites | lib/civic_project.rb:46-48 | the constructor's first loop, run through `[]=`, ends with the store `Replay` specifies, or with the error of the first rejected parameter; the record stays valid |
| Records.Record.New | lib/civic_project.rb:44-59 | the constructor's two loops produce exactly `Build`: the same store on success (fresh, unfrozen, valid) and the same error on failure |
| Records.Record.CheckRequired | lib/civic_project.rb:50-58 | the required-field loop returns what `Audit` specifies |
| CivicProject.NamesOfFields | lib/civic_project.rb:29-39 | the keys of `FIELDS`, in table order |
| CivicProject.CanonicalizeKey | lib/civic_project.rb:79-83 | succeeds exactly for the nine `FIELDS` keys (after upcasing), returning the upcased name; otherwise unknown field |
| CivicProject.CanonicalizeKeyExamples | spec/civic_project_spec.rb:74-83 | "description" and "DESCRIPTION" both canonicalise to DESCRIPTION |
| CivicProject.CanonicalizeKeyRejects | spec/civic_project_spec.rb:84-88 | CUPCAKES is rejected as an unknown field |
| CivicProject.IndexOf | lib/civic_project.rb:165 | `find_index`: the first position holding the value, or none when it is absent |
| CivicProject.TypeIndex | lib/civic_project.rb:164-166 | `type_index` points at the stored TYPE in `VALID_TYPES`, and is nil exactly when TYPE is not listed |
| CivicProject.StatusIndex | lib/civic_project.rb:168-170 | `status_index` points at the stored STATUS in `VALID_STATUSES`, and is nil exactly when STATUS is not listed |
| CivicProject.TypeIndexOf | lib/civic_project.rb:6-14 | `VALID_TYPES` has no repeats, so a type listed at position i has index i |
| CivicProject.TypeRank | lib/civic_project.rb:183-184 | `type_index`, or 9999 when nil: below the length of `VALID_TYPES` exactly when TYPE is listed, and then its position; 9999 otherwise, so unlisted types sort last |
| CivicProject.StatusRank | lib/civic_project.rb:188-189 | `status_index`, or 9999 when nil: below the length of `VALID_STATUSES` exactly when STATUS is listed, and then its position; 9999 otherwise |
| CivicProject.IsType | lib/civic_project.rb:156-158 | `is_type?(t)` holds exactly when TYPE is a string as long as t whose every character is t's character downcased |
| CivicProject.IsStatus | lib/civic_project.rb:160-162 | `is_status?(s)` holds exactly when STATUS is a string as long as s whose every character is s's character downcased |
| CivicProject.IsTypeIgnoresCase | lib/civic_project.rb:156-162 | `is_type?` and `is_status?` give the same answer for any letter case of the argument |
| CivicProject.IsTypeRank | lib/civic_project.rb:156-166 | when `is_type?(t)` holds, the type is ranked exactly when downcased t is in `VALID_TYPES`, at t's position |
| CivicProject.ToList | lib/civic_project.rb:177-179 | `to_list` has one pair per stored field, in store order, with the name downcased and the value unchanged |
| CivicProject.ToListAfterPut | lib/civic_project.rb:177-179 | re-assigning a field keeps its place in `to_list`; a first assignment adds it at the end |
| CivicProject.Sign | lib/civic_project.rb:185 | Integer `<=>`: -1, 0 or 1 by order |
| CivicProject.Compare | lib/civic_project.rb:181-194 | `<=>` returns -1, 0 or 1. Type rank dominates (9999 when unlisted). Status rank breaks type ties. NAME decides only when both ranks are equal |
| CivicProject.CompareReflexive | lib/civic_project.rb:181-194 | a project compares equal to itself |
| CivicProject.CompareAntisymmetric | lib/civic_project.rb:181-194 | swapping the operands negates the result |
| CivicProject.CompareTransitive | lib/civic_project.rb:181-194 | the ordering is transitive, so `load_dir`'s sort is well defined |
| CivicProject.WebApplicationBeforeDataset | lib/civic_project.rb:183-186 | a web application sorts before a dataset whatever the statuses and names |
| CivicProject.NameBreaksTies | lib/civic_project.rb:193 | with equal type and status, NAME "aaaa" sorts before "bbbb" |
| CivicProject.FieldRules | lib/civic_project.rb:31-36 | the rules `FIELDS` gives NAME, DESCRIPTION, TYPE and STATUS |
| CivicProject.LinkRules | lib/civic_project.rb:33-34 | ACCESS_AT and PROJECT_AT are optional scalars with the URL format |
| CivicProject.DescriptionNeedsPeriod | lib/civic_project.rb:32 | a non-empty DESCRIPTION is accepted exactly when some '.' ends a line, and is otherwise a format mismatch |
| CivicProject.LinkNeedsUrl | lib/civic_project.rb:33-34 | a non-empty ACCESS_AT or PROJECT_AT is accepted exactly when some line starts with http:// or https://, and is otherwise a format mismatch |
| CivicProject.SetKeepsRequired | lib/civic_project.rb:146-154 | a write `[]=` accepts never empties KEY, NAME, DESCRIPTION, TYPE or STATUS, because those rows are REQUIRED |
| CivicProject.ConstructedKeyFilled | lib/civic_project.rb:50-58 | a constructed project has a non-empty KEY |
| CivicProject.ConstructedNameFilled | lib/civic_project.rb:50-58 | a constructed project has a non-empty NAME |
| CivicProject.ConstructedDescriptionFilled | lib/civic_project.rb:50-58 | a constructed project has a non-empty DESCRIPTION |
| CivicProject.ConstructedTypeFilled | lib/civic_project.rb:50-58 | a constructed project has a non-empty TYPE |
| CivicProject.ConstructedStatusFilled | lib/civic_project.rb:50-58 | a constructed project has a non-empty STATUS |
| CivicProject.ConstructedRequired | lib/civic_project.rb:44-59 | a constructed project is valid and has all five required fields filled |
| CivicProject.ValidProjectRanked | lib/civic_project.rb:29-39 | in such a project NAME is a string, TYPE and STATUS both have indexes (so `<=>` never uses 9999), and DESCRIPTION has a period ending a line |
| CivicProject.BadStatusRejected | spec/civic_project_spec.rb:31-35 | any parameter list that writes STATUS "cupcakes" fails to construct |
| CivicProject.MissingKeyRejected | spec/civic_project_spec.rb:26-30 | a KEY that is missing or last written nil fails construction |
| Afpd.NamesOfValidations | lib/afpd.rb:3-13 | the keys of `VALIDATIONS`, in table order |
| Afpd.CanonicalizeKey | lib/afpd.rb:52-56 | succeeds exactly for the nine `VALIDATIONS` keys (after upcasing), returning the upcased name; otherwise unknown field |
| Afpd.CanonicalizeKeyDescription | spec/project_spec.rb:60-63 | "description" canonicalises to DESCRIPTION |
| Afpd.CanonicalizeKeyRejects | spec/project_spec.rb:69-73 | CUPCAKES is rejected as an unknown field |
| Afpd.ContactsNotContact | lib/afpd.rb:12 | CONTACTS is a key and CONTACT is not |
| Afpd.OnlyIdentityRequired | lib/afpd.rb:4-12 | exactly the KEY, NAME and DESCRIPTION rows are required |
| Afpd.OnlyLinksFormatted | lib/afpd.rb:7-8 | only ACCESS_AT and PROJECT_AT have a `:MATCHES` format, and it is the URL format |
| Afpd.DescriptionRule | lib/afpd.rb:6 | DESCRIPTION is a required scalar with no values list and no format |
| Afpd.StatusRule | lib/afpd.rb:10 | STATUS is an optional scalar limited to its values list |
| Afpd.CollectionRules | lib/afpd.rb:11-12 | CATEGORIES and CONTACTS are optional lists |
| Afpd.DescriptionAnyText | lib/afpd.rb:6 | any non-empty DESCRIPTION is accepted, with or without a period |
| Afpd.ScalarCollectionRejected | lib/afpd.rb:91-98 | a non-empty string written to CATEGORIES or CONTACTS fails with "list value required"; it is not wrapped in a list |
| Afpd.UnknownStatusRejected | lib/afpd.rb:100-105 | a STATUS outside its list fails, naming the rejected value |
| Afpd.BadStatusRejected | spec/project_spec.rb:16-20 | any parameter list that writes STATUS "cupcakes" fails to construct |
| Afpd.MissingIdentityRejected | lib/afpd.rb:26-34 | a KEY, NAME or DESCRIPTION that is missing or last written empty fails construction |
| Afpd.KeyWriteAccepted | lib/afpd.rb:119-127 | writing a non-empty string under "key" is accepted under KEY |
| Afpd.NameWriteAccepted | lib/afpd.rb:119-127 | writing a non-empty string under "name" is accepted under NAME |
| Afpd.DescriptionWriteAccepted | lib/afpd.rb:119-127 | writing a non-empty string under "description" is accepted under DESCRIPTION |
| Afpd.ReplayKeyName | lib/afpd.rb:22-24 | replaying key and name stores KEY then NAME, in write order |
| Afpd.ReplayMinimal | lib/afpd.rb:22-24 | replaying key, name and description stores KEY, NAME, DESCRIPTION in write order |
| Afpd.AuditKeyName | lib/afpd.rb:26-34 | with only KEY and NAME stored, the required-field pass stops at DESCRIPTION |
| Afpd.NoDescriptionExample | spec/project_spec.rb:11-15 | constructing from key and name alone fails because DESCRIPTION is missing |
| Afpd.RequiredPassIff | lib/afpd.rb:26-34 | the required-field pass succeeds exactly when KEY, NAME and DESCRIPTION are non-empty |
| Afpd.AuditMinimal | lib/afpd.rb:26-34 | a store with KEY, NAME and DESCRIPTION filled passes the required-field pass |
| Afpd.MinimalProjectExample | spec/project_spec.rb:205-211 | constructing from any non-empty key, name and description succeeds. `to_h` then holds exactly those three fields, in write order, and STATUS reads nil |

## Left out

- Loaders: `load_yml` and `load_dir` (YAML parsing, directory globbing, `File.basename`, and `load_dir`'s library sort) are not modelled. Only the ordering they sort by (`<=>`) is. `lib/afpd.rb` has no empty-directory error, although `spec/project_spec.rb:52-56` expects one.
- Text.Upcase: ASCII letters only. Ruby's Unicode-aware `String#upcase`/`downcase` (for example 'ı' to 'I') is not modelled.
- Values are nil, strings and lists of strings. Integers and booleans are left out, because `.empty?` raises NoMethodError on them before the type `case` is reached. The "bad value type" branch is left out too: `True` and `False` are not Ruby constants, so it cannot be reached as written. List elements are never kind-checked, so nested lists are left out as well.
- Validation.Rule: every rule has a kind, so the "internal error - bad :TYPE specifier" branch (`lib/civic_project.rb:124`, `lib/afpd.rb:97`) is not modelled. The spec examples that pass a hand-built rule without `:TYPE` (for example `spec/civic_project_spec.rb:94-98`) actually reach that branch. `Validation.ListValuesExample` therefore states them with an explicit kind.
- Validation.Matches: only the two line-anchored formats used by the tables are modelled, not general regular expressions. A format rule applied to a list value does not match, as Ruby's `Object#=~` returns nil. Neither table combines a format with a list.
- Aliasing: `[]` and `to_h` hand out the stored String and Array objects themselves, and `freeze` freezes only the hash, not its values. A caller can therefore change a stored value in place without validation. The model's values are immutable, so this is not captured.
- Hash values: `{}` passes `value.empty?` and is stored by any optional field. A non-empty Hash, like any value that is neither String nor Array, reaches `when Fixnum`/`when True` (`lib/civic_project.rb:109-110`), and evaluating that missing constant raises NameError. Neither is modelled.
- List elements: elements of a list value are never type-checked, so a list holding a number (for example in CATEGORIES, which has no values list) is accepted and stored. The model's lists hold strings only.
- Error messages, and the Ruby exception classes for unknown names and frozen hashes, are modelled as constructors of `Validation.Error`, without message text.
- CivicProject.Compare: requires NAME to hold a string. Every constructed project satisfies this (`CivicProject.ValidProjectRanked`). When a NAME is nil or a list, the final `<=>` on line 193 does not raise: it returns nil for operands it cannot compare (`nil <=> "x"`, `"x" <=> nil`), 0 for `nil <=> nil`, and an element-wise result for two arrays. Only a caller's sort then raises, on the nil. These results are not modelled.
- CivicProject functions: `TypeIndex`, `StatusIndex`, `IsType`, `IsStatus`, `ToList` and `Compare` take the record's store (`Record.fields`) rather than the object. They read it directly with the canonical key, as `self[:TYPE]` does.
- Records.Record.New: the required-field loop reads the store directly with each table key, where Ruby calls `self[field]`. Table keys are already canonical, so the value read is the same.
- Records.Record.Set: a frozen store is reported as `FrozenStore` once validation has passed, standing for Ruby's FrozenError raised by the hash assignment.
- `spec/project_spec.rb:199-202` expects `[]=` to wrap a scalar CATEGORIES value in a list. `lib/afpd.rb:119-127` does no such coercion, and the model follows the code (`Afpd.ScalarCollectionRejected`).
