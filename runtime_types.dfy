/**
 * Runtime-type matching (`CheckValueRuntimeTypesMatch`, `CheckArgRuntimeTypesMatch`):
 * a type produced at run time is compared with the type a schema declares.
 * A runtime union must be a subset of the schema's union, lists compare their
 * element unions, and maps follow the same key discipline as casting.
 */
module RuntimeTypes {
  import opened Values
  import opened Unions
  import opened ConfigErrors
  import opened ValueTypes

  /**
   * CheckValueRuntimeTypesMatch (validators.go:414-498). The schema type must be
   * valid and, unless it is a union string, so must the runtime type: the list
   * branch reads element 0 of both without a length check.
   */
  ghost function CheckValueRuntimeTypesMatch(rt: Value, t: Value): (r: Outcome)
    requires ValidType(t) && (t.Str? || ValidType(rt))
    decreases t, 2
    // a union schema accepts a runtime union whose every option it lists
    ensures t.Str? ==> (r.Pass? <==> rt.Str? && SubUnion(rt.s, t.s))
    // a list schema accepts a runtime list whose element union it covers
    ensures t.List? ==>
      (r.Pass? <==> rt.List? && |rt.items| == 1 && rt.items[0].Str? && SubUnion(rt.items[0].s, t.items[0].s))
    // shape mismatches and union mismatches are UnsupportedDataType, unwrapped
    ensures !t.Map? && r.Fail? ==> r.error == Raise(UnsupportedDataType)
    ensures t.Map? && !rt.Map? ==> r == Fail(Raise(UnsupportedDataType))
  {
    if t.Str? then
      if rt.Str? && SubUnion(rt.s, t.s) then Pass else Fail(Raise(UnsupportedDataType))
    else if t.Map? then
      if !rt.Map? then
        Fail(Raise(UnsupportedDataType))
      else
        ValidMapValues(t);
        ValidMapValues(rt);
        if IsGenericMapType(t.entries) then CheckGenericMap(rt, t) else CheckFixedMap(rt, t)
    else
      // a valid type that is neither a string nor a map is a list of one union
      var validTypes := AsStrSlice(t).value;
      match AsStrSlice(rt)
      case None => Fail(Raise(UnsupportedDataType))
      case Some(runtimeTypes) =>
        if SubUnion(runtimeTypes[0], validTypes[0]) then Pass else Fail(Raise(UnsupportedDataType))
  }

  /**
   * The generic-map branch (validators.go:450-462): every runtime entry's key
   * is matched against the schema's key union (its error is not wrapped) and
   * its value against the schema's value type (wrapped with the key).
   */
  ghost function CheckGenericMap(rt: Value, t: Value): (r: Outcome)
    requires t.Map? && IsGenericMapType(t.entries) && forall k :: k in t.entries ==> ValidType(t.entries[k])
    requires rt.Map? && forall k :: k in rt.entries ==> ValidType(rt.entries[k])
    decreases t, 1
    ensures r.Pass? <==>
      forall rk :: rk in rt.entries ==>
        && CheckValueRuntimeTypesMatch(rk, GenericKeyOf(t.entries)).Pass?
        && CheckValueRuntimeTypesMatch(rt.entries[rk], t.entries[GenericKeyOf(t.entries)]).Pass?
    ensures r.Fail? ==>
      exists rk :: rk in rt.entries && (
        || CheckValueRuntimeTypesMatch(rk, GenericKeyOf(t.entries)) == r
        || (&& CheckValueRuntimeTypesMatch(rk, GenericKeyOf(t.entries)).Pass?
            && CheckValueRuntimeTypesMatch(rt.entries[rk], t.entries[GenericKeyOf(t.entries)]).Fail?
            && r.error ==
                 CheckValueRuntimeTypesMatch(rt.entries[rk], t.entries[GenericKeyOf(t.entries)]).error.Wrap(Key(rk))))
  {
    var keyType := GenericKeyOf(t.entries);
    var valueType := t.entries[keyType];
    if exists rk :: rk in rt.entries &&
        (CheckValueRuntimeTypesMatch(rk, keyType).Fail? || CheckValueRuntimeTypesMatch(rt.entries[rk], valueType).Fail?)
    then
      var rk :| rk in rt.entries &&
        (CheckValueRuntimeTypesMatch(rk, keyType).Fail? || CheckValueRuntimeTypesMatch(rt.entries[rk], valueType).Fail?);
      if CheckValueRuntimeTypesMatch(rk, keyType).Fail? then
        CheckValueRuntimeTypesMatch(rk, keyType)
      else
        Fail(CheckValueRuntimeTypesMatch(rt.entries[rk], valueType).error.Wrap(Key(rk)))
    else
      Pass
  }

  /**
   * The fixed-map branch (validators.go:464-480): every schema field must be
   * present and match, and no other runtime key may appear.
   */
  ghost function CheckFixedMap(rt: Value, t: Value): (r: Outcome)
    requires t.Map? && !IsGenericMapType(t.entries) && forall k :: k in t.entries ==> ValidType(t.entries[k])
    requires rt.Map? && forall k :: k in rt.entries ==> ValidType(rt.entries[k])
    decreases t, 1
    ensures r.Pass? <==>
      && (forall k :: k in t.entries ==>
            k in rt.entries && CheckValueRuntimeTypesMatch(rt.entries[k], t.entries[k]).Pass?)
      && (forall rk :: rk in rt.entries ==> rk in t.entries)
  {
    var fields := t.entries;
    if exists k :: k in fields && (k !in rt.entries || CheckValueRuntimeTypesMatch(rt.entries[k], fields[k]).Fail?) then
      var k :| k in fields && (k !in rt.entries || CheckValueRuntimeTypesMatch(rt.entries[k], fields[k]).Fail?);
      if k !in rt.entries then Fail(Raise(MustBeDefined).Wrap(Key(k)))
      else Fail(CheckValueRuntimeTypesMatch(rt.entries[k], fields[k]).error.Wrap(Key(k)))
    else if exists rk :: rk in rt.entries && rk !in fields then
      var rk :| rk in rt.entries && rk !in fields;
      Fail(Raise(UnsupportedKey(rk)))
    else
      Pass
  }

  /**
   * A fixed-map mismatch is MustBeDefined under a missing field, or a field's
   * own mismatch under that field; only when every field matches does an
   * extra runtime key fail, with UnsupportedKey.
   */
  lemma CheckFixedMapError(rt: Value, t: Value)
    requires t.Map? && !IsGenericMapType(t.entries) && forall k :: k in t.entries ==> ValidType(t.entries[k])
    requires rt.Map? && forall k :: k in rt.entries ==> ValidType(rt.entries[k])
    requires CheckFixedMap(rt, t).Fail?
    ensures var e := CheckFixedMap(rt, t).error;
      || (exists k :: k in t.entries && k !in rt.entries && e == Raise(MustBeDefined).Wrap(Key(k)))
      || (exists k :: k in t.entries && k in rt.entries &&
            CheckValueRuntimeTypesMatch(rt.entries[k], t.entries[k]).Fail? &&
            e == CheckValueRuntimeTypesMatch(rt.entries[k], t.entries[k]).error.Wrap(Key(k)))
      || (&& (forall k :: k in t.entries ==>
                k in rt.entries && CheckValueRuntimeTypesMatch(rt.entries[k], t.entries[k]).Pass?)
          && exists rk :: rk in rt.entries && rk !in t.entries && e == Raise(UnsupportedKey(rk)))
  {
  }

  /** Every valid type matches itself. */
  lemma {:induction false} MatchReflexive(t: Value)
    requires ValidType(t)
    ensures CheckValueRuntimeTypesMatch(t, t).Pass?
    decreases t
  {
    if t.Map? {
      ValidMapValues(t);
      forall k | k in t.entries
        ensures CheckValueRuntimeTypesMatch(t.entries[k], t.entries[k]).Pass?
      {
        MatchReflexive(t.entries[k]);
      }
      if IsGenericMapType(t.entries) {
        var key := GenericKeyOf(t.entries);
        forall rk | rk in t.entries
          ensures CheckValueRuntimeTypesMatch(rk, key).Pass?
          ensures CheckValueRuntimeTypesMatch(t.entries[rk], t.entries[key]).Pass?
        {
          SingleKey(t.entries, rk, key);
          GenericKeyValidates(key);
        }
        assert CheckGenericMap(t, t).Pass?;
      } else {
        assert CheckFixedMap(t, t).Pass?;
      }
    }
  }

  /**
   * Matching is transitive: a runtime type that matches an intermediate type
   * which itself matches the schema matches the schema.
   */
  lemma {:induction false} MatchTransitive(a: Value, b: Value, c: Value)
    requires ValidType(a) && ValidType(b) && ValidType(c)
    requires CheckValueRuntimeTypesMatch(a, b).Pass? && CheckValueRuntimeTypesMatch(b, c).Pass?
    ensures CheckValueRuntimeTypesMatch(a, c).Pass?
    decreases c, 1
  {
    if c.Map? {
      ValidMapValues(a);
      ValidMapValues(b);
      ValidMapValues(c);
      if IsGenericMapType(c.entries) {
        TransitiveIntoGeneric(a, b, c);
      } else {
        TransitiveIntoFixed(a, b, c);
      }
    }
  }

  lemma {:induction false} TransitiveIntoGeneric(a: Value, b: Value, c: Value)
    requires ValidType(a) && ValidType(b) && ValidType(c) && a.Map? && b.Map? && c.Map?
    requires forall k :: k in a.entries ==> ValidType(a.entries[k])
    requires forall k :: k in b.entries ==> ValidType(b.entries[k])
    requires forall k :: k in c.entries ==> ValidType(c.entries[k])
    requires IsGenericMapType(c.entries)
    requires CheckValueRuntimeTypesMatch(a, b).Pass? && CheckValueRuntimeTypesMatch(b, c).Pass?
    ensures CheckGenericMap(a, c).Pass?
    decreases c, 0
  {
    var keyType := GenericKeyOf(c.entries);
    var valueType := c.entries[keyType];
    assert CheckGenericMap(b, c).Pass?;
    forall ak | ak in a.entries
      ensures CheckValueRuntimeTypesMatch(ak, keyType).Pass?
      ensures CheckValueRuntimeTypesMatch(a.entries[ak], valueType).Pass?
    {
      if IsGenericMapType(b.entries) {
        var bk := GenericKeyOf(b.entries);
        assert CheckGenericMap(a, b).Pass?;
        MatchTransitive(a.entries[ak], b.entries[bk], valueType);
      } else {
        assert CheckFixedMap(a, b).Pass?;
        MatchTransitive(a.entries[ak], b.entries[ak], valueType);
      }
    }
  }

  lemma {:induction false} TransitiveIntoFixed(a: Value, b: Value, c: Value)
    requires ValidType(a) && ValidType(b) && ValidType(c) && a.Map? && b.Map? && c.Map?
    requires forall k :: k in a.entries ==> ValidType(a.entries[k])
    requires forall k :: k in b.entries ==> ValidType(b.entries[k])
    requires forall k :: k in c.entries ==> ValidType(c.entries[k])
    requires !IsGenericMapType(c.entries)
    requires CheckValueRuntimeTypesMatch(a, b).Pass? && CheckValueRuntimeTypesMatch(b, c).Pass?
    ensures CheckFixedMap(a, c).Pass?
    decreases c, 0
  {
    assert CheckFixedMap(b, c).Pass?;
    if IsGenericMapType(b.entries) {
      // the union key of b would be a field of c, making c generic
      var bk := GenericKeyOf(b.entries);
      assert bk in c.entries;
      ValidateValueTypeCases(c);
      assert false;
    }
    assert CheckFixedMap(a, b).Pass?;
    forall k | k in c.entries
      ensures k in a.entries && CheckValueRuntimeTypesMatch(a.entries[k], c.entries[k]).Pass?
    {
      MatchTransitive(a.entries[k], b.entries[k], c.entries[k]);
    }
  }

  /**
   * CheckArgRuntimeTypesMatch (validators.go:380-412): both argument maps are
   * validated, then every declared argument must be supplied with a matching
   * runtime type, and no undeclared argument may be supplied.
   */
  ghost function CheckArgRuntimeTypesMatch(rts: map<string, Value>, schemas: map<string, Value>): (r: Outcome)
    ensures r.Pass? <==>
      && ValidateArgTypes(schemas).Pass? && ValidateArgTypes(rts).Pass?
      && (forall name :: name in schemas ==>
            name in rts && CheckValueRuntimeTypesMatch(rts[name], schemas[name]).Pass?)
      && (forall name :: name in rts ==> name in schemas)
    // the schema side is validated first, then the runtime side
    ensures ValidateArgTypes(schemas).Fail? ==> r == ValidateArgTypes(schemas)
    ensures ValidateArgTypes(schemas).Pass? && ValidateArgTypes(rts).Fail? ==> r == ValidateArgTypes(rts)
  {
    match ValidateArgTypes(schemas)
    case Fail(e) => Fail(e)
    case Pass =>
      match ValidateArgTypes(rts)
      case Fail(e) => Fail(e)
      case Pass =>
        if exists name :: name in schemas &&
            (name !in rts || CheckValueRuntimeTypesMatch(rts[name], schemas[name]).Fail?)
        then
          var name :| name in schemas &&
            (name !in rts || CheckValueRuntimeTypesMatch(rts[name], schemas[name]).Fail?);
          if |rts| == 0 then Fail(Raise(MapMustBeDefined(schemas.Keys)))
          else if name !in rts then Fail(Raise(MustBeDefined).Wrap(Name(name)))
          else Fail(CheckValueRuntimeTypesMatch(rts[name], schemas[name]).error.Wrap(Name(name)))
        else if exists name :: name in rts && name !in schemas then
          var name :| name in rts && name !in schemas;
          Fail(Raise(UnsupportedKey(Str(name))))
        else
          Pass
  }

  /**
   * With both sides valid, supplying no runtime arguments at all against a
   * non-empty schema is MapMustBeDefined, listing the declared names.
   */
  lemma CheckArgsMissingMap(rts: map<string, Value>, schemas: map<string, Value>)
    requires ValidateArgTypes(schemas).Pass? && ValidateArgTypes(rts).Pass?
    requires |rts| == 0 && |schemas| != 0
    ensures CheckArgRuntimeTypesMatch(rts, schemas) == Fail(Raise(MapMustBeDefined(schemas.Keys)))
  {
    var name := NameOf(schemas);
    assert name !in rts;
  }

  /**
   * Otherwise the error is a missing argument, an argument's mismatch under its
   * name, or (only when every declared argument matches) an undeclared argument.
   */
  lemma CheckArgErrors(rts: map<string, Value>, schemas: map<string, Value>)
    requires ValidateArgTypes(schemas).Pass? && ValidateArgTypes(rts).Pass?
    requires |rts| != 0 && CheckArgRuntimeTypesMatch(rts, schemas).Fail?
    ensures var e := CheckArgRuntimeTypesMatch(rts, schemas).error;
      || (exists name :: name in schemas && name !in rts && e == Raise(MustBeDefined).Wrap(Name(name)))
      || (exists name :: name in schemas && name in rts &&
            CheckValueRuntimeTypesMatch(rts[name], schemas[name]).Fail? &&
            e == CheckValueRuntimeTypesMatch(rts[name], schemas[name]).error.Wrap(Name(name)))
      || (&& (forall name :: name in schemas ==>
                name in rts && CheckValueRuntimeTypesMatch(rts[name], schemas[name]).Pass?)
          && exists name :: name in rts && name !in schemas && e == Raise(UnsupportedKey(Str(name))))
  {
  }

  /** Some key of a non-empty map. */
  lemma NameOf(m: map<string, Value>) returns (name: string)
    requires |m| != 0
    ensures name in m
  {
    var names := m.Keys;
    assert |names| != 0;
    name :| name in names;
  }

  /** An argument map matches itself exactly when its types are valid. */
  lemma ArgsMatchReflexive(m: map<string, Value>)
    ensures CheckArgRuntimeTypesMatch(m, m).Pass? <==> ValidateArgTypes(m).Pass?
  {
    if ValidateArgTypes(m).Pass? {
      forall name | name in m
        ensures CheckValueRuntimeTypesMatch(m[name], m[name]).Pass?
      {
        MatchReflexive(m[name]);
      }
    }
  }

}
