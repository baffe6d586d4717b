/**
 * The record's field store (`@fields`, a Ruby Hash in first-insertion order)
 * and the value-level meaning of a write (`[]=`) and of construction
 * (`initialize`: replay the supplied writes, then audit the required fields).
 */
module FieldStore {
  import opened Wrappers
  import opened Text
  import opened Validation

  /** A (name, value) pair: a stored field, or one supplied constructor parameter. */
  datatype Entry = Entry(name: string, value: Value)

  /** `@fields`, in the order its keys were first inserted. */
  type Store = seq<Entry>

  function Keys(st: Store): (ks: seq<string>)
    ensures |ks| == |st|
    ensures forall i :: 0 <= i < |st| ==> ks[i] == st[i].name
  {
    if st == [] then [] else [st[0].name] + Keys(st[1..])
  }

  predicate Distinct(xs: seq<string>) {
    forall i, j :: 0 <= i < j < |xs| ==> xs[i] != xs[j]
  }

  /** `@fields[key]`: the stored value, or nil for a key never written. */
  function Lookup(st: Store, k: string): (v: Value)
    ensures k !in Keys(st) ==> v == Nil
    ensures k in Keys(st) ==> Entry(k, v) in st
  {
    if st == [] then Nil
    else if st[0].name == k then st[0].value
    else Lookup(st[1..], k)
  }

  /**
   * `@fields[key] = value`: a key already present keeps its position and gets
   * the new value; a new key is appended.
   */
  function Put(st: Store, k: string, v: Value): (r: Store)
    ensures |r| == if k in Keys(st) then |st| else |st| + 1
  {
    if st == [] then [Entry(k, v)]
    else if st[0].name == k then [Entry(k, v)] + st[1..]
    else
      assert Keys(st) == [st[0].name] + Keys(st[1..]);
      [st[0]] + Put(st[1..], k, v)
  }

  /** A put of a new key appends one entry at the end. */
  lemma {:induction false} PutAppends(st: Store, k: string, v: Value)
    requires k !in Keys(st)
    ensures Put(st, k, v) == st + [Entry(k, v)]
  {
    if st != [] {
      assert Keys(st) == [st[0].name] + Keys(st[1..]);
      PutAppends(st[1..], k, v);
      assert st == [st[0]] + st[1..];
    }
  }

  /** After a put, the key reads the new value and every other key reads as before. */
  lemma {:induction false} PutLookup(st: Store, k: string, v: Value, k': string)
    ensures Lookup(Put(st, k, v), k') == if k' == k then v else Lookup(st, k')
  {
    if st != [] && st[0].name != k {
      PutLookup(st[1..], k, v, k');
    }
  }

  /** A put keeps the key order, appending the key only when it is new. */
  lemma {:induction false} PutKeys(st: Store, k: string, v: Value)
    ensures Keys(Put(st, k, v)) == if k in Keys(st) then Keys(st) else Keys(st) + [k]
  {
    if st != [] {
      assert Keys(st) == [st[0].name] + Keys(st[1..]);
      if st[0].name != k {
        PutKeys(st[1..], k, v);
        assert Keys(Put(st, k, v)) == [st[0].name] + Keys(Put(st[1..], k, v));
      } else {
        assert Keys(Put(st, k, v)) == [k] + Keys(st[1..]);
      }
    }
  }

  /** A put adds no entry other than the one written. */
  lemma {:induction false} PutEntries(st: Store, k: string, v: Value)
    ensures forall e :: e in Put(st, k, v) ==> e in st || e == Entry(k, v)
  {
    if st != [] && st[0].name != k {
      PutEntries(st[1..], k, v);
    }
  }

  /**
   * The record invariant: keys are distinct table keys and every stored value
   * passes its field's rule.
   */
  ghost predicate StoreValid(schema: Schema, st: Store) {
    && Distinct(Keys(st))
    && forall e :: e in st ==> e.name in Names(schema) && Validate(e.value, RuleOf(schema, e.name)).Pass?
  }

  /** Every field a valid store holds passes its rule. */
  lemma LookupValid(schema: Schema, st: Store, k: string)
    requires StoreValid(schema, st)
    requires k in Keys(st)
    ensures k in Names(schema) && Validate(Lookup(st, k), RuleOf(schema, k)).Pass?
  {
  }

  /**
   * The checks `[]=` makes before it stores: canonicalise the name, then
   * validate the value against that field's rule. The result is the key to
   * store under.
   */
  function CheckWrite(schema: Schema, name: string, v: Value): (r: Result<string, Error>)
    ensures r.Success? <==> Upcase(name) in Names(schema) && Validate(v, RuleOf(schema, Upcase(name))).Pass?
    ensures r.Success? ==> r.value == Upcase(name)
    ensures Upcase(name) !in Names(schema) ==> r == Failure(UnknownField(name))
    ensures Upcase(name) in Names(schema) && Validate(v, RuleOf(schema, Upcase(name))).Fail? ==>
              r == Failure(Invalid(name, Validate(v, RuleOf(schema, Upcase(name))).error))
  {
    match Canonicalize(schema, name)
    case Failure(e) => Failure(e)
    case Success(key) =>
      match Validate(v, RuleOf(schema, key))
      case Fail(reason) => Failure(Invalid(name, reason))
      case Pass => Success(key)
  }

  /** A write that passes its checks keeps the record invariant. */
  lemma PutPreservesValid(schema: Schema, st: Store, name: string, v: Value)
    requires StoreValid(schema, st)
    requires CheckWrite(schema, name, v).Success?
    ensures StoreValid(schema, Put(st, Upcase(name), v))
  {
    var k := Upcase(name);
    var r := Put(st, k, v);
    PutKeys(st, k, v);
    PutEntries(st, k, v);
    if k !in Keys(st) {
      var ks := Keys(r);
      forall i, j | 0 <= i < j < |ks| ensures ks[i] != ks[j] {
        if j == |ks| - 1 {
          assert ks[i] == Keys(st)[i];
        } else {
          assert ks[i] == Keys(st)[i] && ks[j] == Keys(st)[j];
        }
      }
    }
  }

  // ---------------------------------------------------------------------------
  // Construction

  /**
   * The constructor's first loop, `params.each { |f, v| self[f] = v }`, on an
   * empty store: writes are applied in order and the first failing one aborts.
   */
  function Replay(schema: Schema, params: seq<Entry>): (r: Result<Store, Error>)
    ensures r.Success? ==> |r.value| <= |params|
    ensures r.Failure? ==> r.error.UnknownField? || r.error.Invalid?
    decreases |params|
  {
    if params == [] then Success([])
    else
      var last := params[|params| - 1];
      match Replay(schema, params[..|params| - 1])
      case Failure(e) => Failure(e)
      case Success(st) =>
        match CheckWrite(schema, last.name, last.value)
        case Failure(e) => Failure(e)
        case Success(key) => Success(Put(st, key, last.value))
  }

  /** One more accepted write extends the replay by a put under its canonical key. */
  lemma ReplayAppend(schema: Schema, params: seq<Entry>, e: Entry, st: Store)
    requires Replay(schema, params) == Success(st)
    requires WriteOk(schema, e)
    ensures Replay(schema, params + [e]) == Success(Put(st, Upcase(e.name), e.value))
  {
    assert (params + [e])[..|params|] == params;
  }

  /** The replay of the first i + 1 writes extends that of the first i by write i. */
  lemma ReplayExtend(schema: Schema, params: seq<Entry>, i: nat, st: Store)
    requires i < |params|
    requires Replay(schema, params[..i]) == Success(st)
    requires WriteOk(schema, params[i])
    ensures Replay(schema, params[..i + 1]) == Success(Put(st, Upcase(params[i].name), params[i].value))
  {
    assert params[..i + 1][..i] == params[..i];
  }

  /** Row j of the table is required and its field is empty in st. */
  predicate Missing(schema: Schema, st: Store, j: nat)
    requires j < |schema|
  {
    schema[j].rule.required && IsEmpty(Lookup(st, schema[j].name))
  }

  /** The constructor's second loop: the first required field, in table order from i, whose value is empty. */
  function Audit(schema: Schema, st: Store, i: nat): (r: Outcome<Error>)
    requires i <= |schema|
    ensures r.Pass? <==> forall j :: i <= j < |schema| && schema[j].rule.required ==> !IsEmpty(Lookup(st, schema[j].name))
    ensures r.Fail? ==> exists j :: && i <= j < |schema| && Missing(schema, st, j)
                                     && r.error == MissingRequired(schema[j].name)
                                     && forall j' :: i <= j' < j ==> !Missing(schema, st, j')
    decreases |schema| - i
  {
    if i == |schema| then Pass
    else if Missing(schema, st, i) then Fail(MissingRequired(schema[i].name))
    else Audit(schema, st, i + 1)
  }

  /** `initialize(params)`: the stored fields of the new record, or the error that aborts construction. */
  function Build(schema: Schema, params: seq<Entry>): (r: Result<Store, Error>)
    ensures r.Failure? ==> r.error.UnknownField? || r.error.Invalid? || r.error.MissingRequired?
  {
    match Replay(schema, params)
    case Failure(e) => Failure(e)
    case Success(st) =>
      match Audit(schema, st, 0)
      case Fail(e) => Failure(e)
      case Pass => Success(st)
  }

  /** The value of the last parameter whose name canonicalises to k, or nil when none does. */
  function LastWrite(params: seq<Entry>, k: string): Value {
    if params == [] then Nil
    else if Upcase(params[|params| - 1].name) == k then params[|params| - 1].value
    else LastWrite(params[..|params| - 1], k)
  }

  /** A completed replay hands its store to the required-field pass. */
  /** A failed replay is the constructor's failure. */
  lemma BuildFromReplayFailure(schema: Schema, params: seq<Entry>)
    requires Replay(schema, params).Failure?
    ensures Build(schema, params) == Failure(Replay(schema, params).error)
  {
  }

  lemma BuildFromReplay(schema: Schema, params: seq<Entry>, st: Store)
    requires Replay(schema, params) == Success(st)
    ensures Audit(schema, st, 0).Pass? ==> Build(schema, params) == Success(st)
    ensures Audit(schema, st, 0).Fail? ==> Build(schema, params) == Failure(Audit(schema, st, 0).error)
  {
  }

  /** Every write that succeeds keeps the invariant, so a replayed store is valid. */
  lemma {:induction false} ReplayValid(schema: Schema, params: seq<Entry>)
    requires Replay(schema, params).Success?
    ensures StoreValid(schema, Replay(schema, params).value)
    decreases |params|
  {
    if params != [] {
      var init := params[..|params| - 1];
      var last := params[|params| - 1];
      ReplayValid(schema, init);
      PutPreservesValid(schema, Replay(schema, init).value, last.name, last.value);
    }
  }

  /** The last write to a field wins; a field never written reads as nil. */
  lemma {:induction false} ReplayLastWrite(schema: Schema, params: seq<Entry>, k: string)
    requires Replay(schema, params).Success?
    ensures Lookup(Replay(schema, params).value, k) == LastWrite(params, k)
    decreases |params|
  {
    if params != [] {
      var init := params[..|params| - 1];
      var last := params[|params| - 1];
      ReplayLastWrite(schema, init, k);
      PutLookup(Replay(schema, init).value, Upcase(last.name), last.value, k);
    }
  }

  /** A supplied (name, value) pair that `[]=` would accept on an unfrozen record. */
  predicate WriteOk(schema: Schema, e: Entry) {
    CheckWrite(schema, e.name, e.value).Success?
  }

  lemma ReplayStep(schema: Schema, params: seq<Entry>)
    requires params != []
    ensures Replay(schema, params).Success? <==>
            Replay(schema, params[..|params| - 1]).Success? && WriteOk(schema, params[|params| - 1])
  {
  }

  /** Replay succeeds exactly when every supplied write passes its checks. */
  lemma {:induction false} ReplaySucceedsIff(schema: Schema, params: seq<Entry>)
    ensures Replay(schema, params).Success? <==> forall i :: 0 <= i < |params| ==> WriteOk(schema, params[i])
    decreases |params|
  {
    if params != [] {
      ReplaySucceedsIff(schema, params[..|params| - 1]);
      ReplayStep(schema, params);
      AllWritesStep(schema, params);
    }
  }

  /** Every supplied write passes its checks. */
  predicate AllWritesOk(schema: Schema, params: seq<Entry>) {
    forall i :: 0 <= i < |params| ==> WriteOk(schema, params[i])
  }

  /** Every write is accepted exactly when every earlier one and the last one are. */
  lemma AllWritesStep(schema: Schema, params: seq<Entry>)
    requires params != []
    ensures AllWritesOk(schema, params) <==>
            AllWritesOk(schema, params[..|params| - 1]) && WriteOk(schema, params[|params| - 1])
  {
    var init := params[..|params| - 1];
    if AllWritesOk(schema, init) {
      forall i | 0 <= i < |params| - 1 ensures WriteOk(schema, params[i]) {
        assert params[i] == init[i];
      }
    }
  }

  /** Once a prefix of the writes fails, the whole replay fails with the same error. */
  lemma {:induction false} ReplayPrefixFailure(schema: Schema, params: seq<Entry>, k: nat)
    requires k <= |params|
    requires Replay(schema, params[..k]).Failure?
    ensures Replay(schema, params) == Replay(schema, params[..k])
    decreases |params|
  {
    if k == |params| {
      assert params[..k] == params;
    } else {
      var init := params[..|params| - 1];
      assert init[..k] == params[..k];
      ReplayPrefixFailure(schema, init, k);
    }
  }

  /** The first failing write decides the error that aborts the replay. */
  lemma ReplayStopsAt(schema: Schema, params: seq<Entry>, i: nat)
    requires i < |params|
    requires Replay(schema, params[..i]).Success?
    requires !WriteOk(schema, params[i])
    ensures Replay(schema, params) == Failure(CheckWrite(schema, params[i].name, params[i].value).error)
  {
    var pre := params[..i + 1];
    assert pre[..i] == params[..i] && pre[i] == params[i];
    ReplayPrefixFailure(schema, params, i + 1);
  }

  /** Construction succeeds exactly when every write passes and every required field is last written non-empty. */
  lemma BuildSucceedsIff(schema: Schema, params: seq<Entry>)
    ensures Build(schema, params).Success? <==>
            && (forall i :: 0 <= i < |params| ==> WriteOk(schema, params[i]))
            && (forall j :: 0 <= j < |schema| && schema[j].rule.required ==> !IsEmpty(LastWrite(params, schema[j].name)))
  {
    ReplaySucceedsIff(schema, params);
    if Replay(schema, params).Success? {
      var st := Replay(schema, params).value;
      forall j | 0 <= j < |schema| ensures Lookup(st, schema[j].name) == LastWrite(params, schema[j].name) {
        ReplayLastWrite(schema, params, schema[j].name);
      }
    }
  }

  /** A constructed record holds valid values, non-empty required fields, and the last write of each field. */
  lemma BuildSound(schema: Schema, params: seq<Entry>)
    requires Build(schema, params).Success?
    ensures StoreValid(schema, Build(schema, params).value)
    ensures forall j :: 0 <= j < |schema| && schema[j].rule.required ==> !IsEmpty(Lookup(Build(schema, params).value, schema[j].name))
    ensures forall k :: Lookup(Build(schema, params).value, k) == LastWrite(params, k)
  {
    ReplayValid(schema, params);
    forall k ensures Lookup(Build(schema, params).value, k) == LastWrite(params, k) {
      ReplayLastWrite(schema, params, k);
    }
  }

  /** A required field of row j is non-empty in a constructed record. */
  lemma BuildRequired(schema: Schema, params: seq<Entry>, j: nat)
    requires Build(schema, params).Success?
    requires j < |schema| && schema[j].rule.required
    ensures !IsEmpty(Lookup(Build(schema, params).value, schema[j].name))
  {
  }
}
