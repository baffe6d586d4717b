/**
 * The mutable record shared by `CivicProject` and `AFPD::Project`: a field
 * store that every write canonicalises and validates first, and that `to_h`
 * freezes.
 */
module Records {
  import opened Wrappers
  import opened Text
  import opened Validation
  import opened FieldStore

  class Record {
    /** The field table the record is checked against (`FIELDS` or `VALIDATIONS`). */
    const schema: Schema
    /** `@fields`, in first-insertion order. */
    var fields: Store
    /** Set once `to_h` has frozen `@fields`. */
    var frozen: bool

    ghost predicate Valid()
      reads this
    {
      StoreValid(schema, fields)
    }

    /** `@fields = {}` */
    constructor Empty(schema: Schema)
      ensures this.schema == schema && fields == [] && !frozen
      ensures Valid()
    {
      this.schema := schema;
      fields := [];
      frozen := false;
    }

    /** `[](field)`: canonicalise the name and read the field; nil if it was never written. */
    function Get(name: string): (r: Result<Value, Error>)
      reads this
      ensures r.Success? <==> Upcase(name) in Names(schema)
      ensures r.Success? ==> r.value == Lookup(fields, Upcase(name))
      ensures r.Success? && Upcase(name) !in Keys(fields) ==> r.value == Nil
      ensures r.Failure? ==> r.error == UnknownField(name)
    {
      match Canonicalize(schema, name)
      case Failure(e) => Failure(e)
      case Success(key) => Success(Lookup(fields, key))
    }

    /**
     * `[]=(field, value)`: canonicalise, validate, then store. A failing call,
     * including a write to a frozen store, changes nothing.
     */
    method Set(name: string, v: Value) returns (r: Outcome<Error>)
      requires Valid()
      modifies this`fields
      ensures Valid()
      ensures r.Pass? <==> WriteOk(schema, Entry(name, v)) && !frozen
      ensures r.Fail? && !WriteOk(schema, Entry(name, v)) ==> r.error == CheckWrite(schema, name, v).error
      ensures r.Fail? && WriteOk(schema, Entry(name, v)) ==> r.error == FrozenStore
      ensures r.Fail? ==> fields == old(fields)
      ensures r.Pass? ==> fields == Put(old(fields), Upcase(name), v)
      ensures r.Pass? ==> forall n :: Upcase(n) == Upcase(name) ==> Get(n) == Success(v)
      ensures r.Pass? ==> forall k :: k != Upcase(name) ==> Lookup(fields, k) == Lookup(old(fields), k)
      ensures r.Pass? ==> Keys(fields) == if Upcase(name) in Keys(old(fields)) then Keys(old(fields)) else Keys(old(fields)) + [Upcase(name)]
    {
      match CheckWrite(schema, name, v)
      case Failure(e) =>
        r := Fail(e);
      case Success(key) =>
        if frozen {
          r := Fail(FrozenStore);
        } else {
          PutPreservesValid(schema, fields, name, v);
          PutKeys(fields, key, v);
          forall k ensures Lookup(Put(fields, key, v), k) == if k == key then v else Lookup(fields, k) {
            PutLookup(fields, key, v, k);
          }
          fields := Put(fields, key, v);
          r := Pass;
        }
    }

    /** `to_h`: hand out the store itself and freeze it; every later `[]=` then fails. */
    method ToH() returns (h: Store)
      modifies this`frozen
      ensures frozen && h == fields
    {
      frozen := true;
      h := fields;
    }

    /**
     * The constructor's first loop: apply the supplied writes to an empty
     * record in order, stopping at the first one `[]=` rejects.
     */
    method ApplyWrites(params: seq<Entry>) returns (failure: Option<Error>)
      requires Valid() && !frozen && fields == []
      modifies this`fields
      ensures Valid()
      ensures failure.None? ==> Replay(schema, params) == Success(fields)
      ensures failure.Some? ==> Replay(schema, params) == Failure(failure.value)
    {
      var i := 0;
      while i < |params|
        invariant 0 <= i <= |params|
        invariant Valid() && !frozen
        invariant Replay(schema, params[..i]) == Success(fields)
      {
        ghost var before := fields;
        var o := Set(params[i].name, params[i].value);
        if o.Fail? {
          ReplayStopsAt(schema, params, i);
          return Some(o.error);
        }
        ReplayExtend(schema, params, i, before);
        i := i + 1;
      }
      assert params[..i] == params;
      failure := None;
    }

    /**
     * `initialize(params)`: apply the supplied writes in order, then check the
     * required fields in table order. Any failure aborts construction.
     */
    static method New(schema: Schema, params: seq<Entry>) returns (r: Result<Record, Error>)
      ensures r.Success? ==> fresh(r.value) && r.value.schema == schema && !r.value.frozen && r.value.Valid()
      ensures r.Success? ==> Build(schema, params) == Success(r.value.fields)
      ensures r.Failure? ==> Build(schema, params) == Failure(r.error)
    {
      var rec := new Record.Empty(schema);
      var failure := rec.ApplyWrites(params);
      if failure.Some? {
        BuildFromReplayFailure(schema, params);
        return Failure(failure.value);
      }
      BuildFromReplay(schema, params, rec.fields);
      var missing := CheckRequired(schema, rec.fields);
      if missing.Fail? {
        return Failure(missing.error);
      }
      r := Success(rec);
    }

    /** The required-field pass of `initialize`: the first required field, in table order, left empty. */
    static method CheckRequired(schema: Schema, st: Store) returns (o: Outcome<Error>)
      ensures o == Audit(schema, st, 0)
    {
      var j := 0;
      while j < |schema|
        invariant 0 <= j <= |schema|
        invariant Audit(schema, st, 0) == Audit(schema, st, j)
      {
        if schema[j].rule.required && IsEmpty(Lookup(st, schema[j].name)) {
          return Fail(MissingRequired(schema[j].name));
        }
        j := j + 1;
      }
      o := Pass;
    }
  }
}
