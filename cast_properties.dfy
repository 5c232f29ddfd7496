/**
 * What CastValue guarantees about its result: it conforms to the type it was
 * cast against, and casting it again changes nothing.
 */
module CastProperties {
  import opened Wrappers
  import opened Values
  import opened Unions
  import opened Kinds
  import opened ConfigErrors
  import opened ValueTypes
  import opened Cast

  /** A scalar of a kind the union names. */
  predicate UnionAdmits(validTypes: seq<string>, x: Value)
  {
    || (x.Int? && "INT" in validTypes)
    || (x.Float? && "FLOAT" in validTypes)
    || (x.Str? && "STRING" in validTypes)
    || (x.Bool? && "BOOL" in validTypes)
  }

  /**
   * The typed documents a valid type describes: null anywhere; a scalar of a
   * kind its union names; a list whose every element conforms to the element
   * union; a map whose keys and values conform to a generic map type; or a map
   * with exactly the fields of a fixed map type, each conforming to its type.
   */
  ghost predicate Conforms(x: Value, t: Value)
    requires ValidType(t)
    decreases t
  {
    if x.Null? then true
    else if t.Str? then UnionAdmits(Split(t.s), x)
    else if t.Map? then
      ValidMapValues(t);
      && x.Map?
      && if IsGenericMapType(t.entries) then
           var keyType := GenericKeyOf(t.entries);
           GenericKeyValidates(keyType);
           forall k :: k in x.entries ==> Conforms(k, keyType) && Conforms(x.entries[k], t.entries[keyType])
         else
           && (forall k :: k in t.entries ==> k in x.entries && Conforms(x.entries[k], t.entries[k]))
           && (forall k :: k in x.entries ==> k in t.entries)
    else
      x.List? && forall i :: 0 <= i < |x.items| ==> Conforms(x.items[i], t.items[0])
  }

  /** Soundness: whatever CastValue returns conforms to the type. */
  lemma {:induction false} CastConforms(c: Coercions, v: Value, t: Value)
    requires ValidType(t) && CastValue(c, v, t).Ok?
    ensures Conforms(CastValue(c, v, t).value, t)
    decreases t, 1
  {
    var x := CastValue(c, v, t).value;
    if v.Null? {
    } else if t.Str? {
      var k :| ValueKindName(k) in Split(t.s) && Coerce(c, v, k) == Some(x);
    } else if t.Map? {
      ValidMapValues(t);
      if |t.entries| == 0 {
      } else if IsGenericMapType(t.entries) {
        GenericCastConforms(c, v.entries, t);
      } else {
        FixedCastConforms(c, v.entries, t);
      }
    } else {
      var xs := CastItems(c, v.items, t.items[0]).value;
      CastItemsElementwise(c, v.items, t.items[0]);
      forall i | 0 <= i < |xs|
        ensures Conforms(xs[i], t.items[0])
      {
        CastConforms(c, v.items[i], t.items[0]);
      }
    }
  }

  lemma {:induction false} GenericCastConforms(c: Coercions, data: map<Value, Value>, t: Value)
    requires ValidType(t) && t.Map? && IsGenericMapType(t.entries)
    requires CastGenericMap(c, data, t).Ok?
    ensures Conforms(CastGenericMap(c, data, t).value, t)
    decreases t, 0
  {
    ValidMapValues(t);
    var keyType := GenericKeyOf(t.entries);
    var valueType := t.entries[keyType];
    var x := CastGenericMap(c, data, t).value;
    forall ck | ck in x.entries
      ensures Conforms(ck, keyType) && Conforms(x.entries[ck], valueType)
    {
      var dk :| dk in data && CastValue(c, dk, keyType) == Ok(ck) &&
        CastValue(c, data[dk], valueType) == Ok(x.entries[ck]);
      GenericKeyValidates(keyType);
      CastConforms(c, dk, keyType);
      CastConforms(c, data[dk], valueType);
    }
  }

  lemma {:induction false} FixedCastConforms(c: Coercions, data: map<Value, Value>, t: Value)
    requires ValidType(t) && t.Map? && |t.entries| > 0 && !IsGenericMapType(t.entries)
    requires CastFixedMap(c, data, t).Ok?
    ensures Conforms(CastFixedMap(c, data, t).value, t)
    decreases t, 0
  {
    ValidMapValues(t);
    var x := CastFixedMap(c, data, t).value;
    forall k | k in t.entries
      ensures Conforms(x.entries[k], t.entries[k])
    {
      CastConforms(c, data[k], t.entries[k]);
    }
  }

  /**
   * What casting twice needs of the numeric coercions: an int and a float cast
   * to themselves, and a float produced for a value the int coercion rejected
   * is rejected by it as well.
   */
  ghost predicate StableCoercions(c: Coercions)
  {
    && (forall i: Int64 :: c.toInt(Int(i)) == Some(i))
    && (forall f :: c.toFloat(Float(f)) == Some(f))
    && (forall v, f :: c.toInt(v).None? && c.toFloat(v) == Some(f) ==> c.toInt(Float(f)).None?)
  }

  /** Under stable coercions, casting a cast result against the same type gives it back. */
  lemma {:induction false} CastIdempotent(c: Coercions, v: Value, t: Value)
    requires StableCoercions(c) && ValidType(t) && CastValue(c, v, t).Ok?
    ensures CastValue(c, CastValue(c, v, t).value, t) == CastValue(c, v, t)
    decreases t, 1
  {
    if v.Null? {
    } else if t.Str? {
      UnionCastIdempotent(c, v, Split(t.s));
    } else if t.Map? {
      if |t.entries| == 0 {
      } else if IsGenericMapType(t.entries) {
        GenericCastIdempotent(c, v.entries, t);
      } else {
        FixedCastIdempotent(c, v.entries, t);
      }
    } else {
      ListCastIdempotent(c, v.items, t);
    }
  }

  lemma UnionCastIdempotent(c: Coercions, v: Value, validTypes: seq<string>)
    requires StableCoercions(c) && CastUnion(c, v, validTypes).Ok?
    ensures CastUnion(c, CastUnion(c, v, validTypes).value, validTypes) == CastUnion(c, v, validTypes)
  {
    if "INT" in validTypes && c.toInt(v).Some? {
    } else if "FLOAT" in validTypes && c.toFloat(v).Some? {
      var f := c.toFloat(v).value;
      assert "INT" in validTypes ==> c.toInt(Float(f)).None?;
    }
  }

  lemma {:induction false} ListCastIdempotent(c: Coercions, items: seq<Value>, t: Value)
    requires StableCoercions(c) && ValidType(t) && t.List? && CastItems(c, items, t.items[0]).Ok?
    ensures CastItems(c, CastItems(c, items, t.items[0]).value, t.items[0]) == CastItems(c, items, t.items[0])
    decreases t, 0
  {
    var elementType := t.items[0];
    var xs := CastItems(c, items, elementType).value;
    CastItemsElementwise(c, items, elementType);
    forall i | 0 <= i < |xs|
      ensures CastValue(c, xs[i], elementType) == Ok(xs[i])
    {
      CastIdempotent(c, items[i], elementType);
    }
    CastItemsSucceeds(c, xs, elementType);
    var ys := CastItems(c, xs, elementType).value;
    CastItemsElementwise(c, xs, elementType);
    assert |ys| == |xs| && forall i :: 0 <= i < |xs| ==> ys[i] == xs[i];
    assert ys == xs;
  }

  lemma {:induction false} GenericCastIdempotent(c: Coercions, data: map<Value, Value>, t: Value)
    requires StableCoercions(c) && ValidType(t) && t.Map? && IsGenericMapType(t.entries)
    requires CastGenericMap(c, data, t).Ok?
    ensures CastGenericMap(c, CastGenericMap(c, data, t).value.entries, t) == CastGenericMap(c, data, t)
    decreases t, 0
  {
    ValidMapValues(t);
    var keyType := GenericKeyOf(t.entries);
    var valueType := t.entries[keyType];
    GenericKeyValidates(keyType);
    var x := CastGenericMap(c, data, t).value.entries;
    forall ck | ck in x
      ensures CastValue(c, ck, keyType) == Ok(ck) && CastValue(c, x[ck], valueType) == Ok(x[ck])
    {
      var dk :| dk in data && CastValue(c, dk, keyType) == Ok(ck) &&
        CastValue(c, data[dk], valueType) == Ok(x[ck]);
      CastIdempotent(c, dk, keyType);
      CastIdempotent(c, data[dk], valueType);
    }
    GenericFixpoint(c, x, t);
  }

  /** A map whose keys and values all cast to themselves casts to itself under a generic map type. */
  lemma GenericFixpoint(c: Coercions, x: map<Value, Value>, t: Value)
    requires ValidType(t) && t.Map? && IsGenericMapType(t.entries)
    requires forall ck :: ck in x ==>
      && CastValue(c, ck, GenericKeyOf(t.entries)) == Ok(ck)
      && CastValue(c, x[ck], t.entries[GenericKeyOf(t.entries)]) == Ok(x[ck])
    ensures CastGenericMap(c, x, t) == Ok(Map(x))
  {
    GenericFixpointKeys(c, x, t);
    GenericFixpointValues(c, x, t);
    var r := CastGenericMap(c, x, t);
    SameMap(x, r.value.entries);
    assert r == Ok(Map(r.value.entries));
  }

  lemma SameMap(x: map<Value, Value>, y: map<Value, Value>)
    requires forall k :: k in x ==> k in y
    requires forall k :: k in y ==> k in x && y[k] == x[k]
    ensures x == y
  {
  }

  lemma GenericFixpointKeys(c: Coercions, x: map<Value, Value>, t: Value)
    requires ValidType(t) && t.Map? && IsGenericMapType(t.entries)
    requires forall ck :: ck in x ==>
      && CastValue(c, ck, GenericKeyOf(t.entries)) == Ok(ck)
      && CastValue(c, x[ck], t.entries[GenericKeyOf(t.entries)]) == Ok(x[ck])
    ensures CastGenericMap(c, x, t).Ok?
    ensures forall k :: k in x ==> k in CastGenericMap(c, x, t).value.entries
  {
    var keyType := GenericKeyOf(t.entries);
    forall k | k in x
      ensures k in CastGenericMap(c, x, t).value.entries
    {
      assert CastValue(c, k, keyType).value == k;
    }
  }

  lemma GenericFixpointValues(c: Coercions, x: map<Value, Value>, t: Value)
    requires ValidType(t) && t.Map? && IsGenericMapType(t.entries)
    requires forall ck :: ck in x ==>
      && CastValue(c, ck, GenericKeyOf(t.entries)) == Ok(ck)
      && CastValue(c, x[ck], t.entries[GenericKeyOf(t.entries)]) == Ok(x[ck])
    requires CastGenericMap(c, x, t).Ok?
    ensures forall k :: k in CastGenericMap(c, x, t).value.entries ==>
      k in x && CastGenericMap(c, x, t).value.entries[k] == x[k]
  {
    var keyType := GenericKeyOf(t.entries);
    var valueType := t.entries[keyType];
    var y := CastGenericMap(c, x, t).value.entries;
    forall k | k in y
      ensures k in x && y[k] == x[k]
    {
      var dk :| dk in x && CastValue(c, dk, keyType) == Ok(k) && CastValue(c, x[dk], valueType) == Ok(y[k]);
    }
  }

  lemma {:induction false} FixedCastIdempotent(c: Coercions, data: map<Value, Value>, t: Value)
    requires StableCoercions(c) && ValidType(t) && t.Map? && |t.entries| > 0 && !IsGenericMapType(t.entries)
    requires CastFixedMap(c, data, t).Ok?
    ensures CastFixedMap(c, CastFixedMap(c, data, t).value.entries, t) == CastFixedMap(c, data, t)
    decreases t, 0
  {
    ValidMapValues(t);
    var x := CastFixedMap(c, data, t).value.entries;
    forall k | k in t.entries
      ensures k in x && CastValue(c, x[k], t.entries[k]) == Ok(x[k])
    {
      CastIdempotent(c, data[k], t.entries[k]);
    }
    FixedFixpoint(c, x, t);
  }

  /** A map with exactly the fields of a fixed map type, each casting to itself, casts to itself. */
  lemma FixedFixpoint(c: Coercions, x: map<Value, Value>, t: Value)
    requires t.Map? && |t.entries| > 0 && !IsGenericMapType(t.entries)
    requires forall k :: k in t.entries ==> k in x && CastValue(c, x[k], t.entries[k]) == Ok(x[k])
    requires forall k :: k in x ==> k in t.entries
    ensures CastFixedMap(c, x, t) == Ok(Map(x))
  {
    var r := CastFixedMap(c, x, t);
    assert r.Ok?;
    SameMap(x, r.value.entries);
    assert r == Ok(Map(r.value.entries));
  }

}
