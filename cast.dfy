/**
 * CastValue: converts a literal document against a value type into its
 * canonical typed form, after validating the type.
 */
module Cast {
  import opened Wrappers
  import opened Values
  import opened Unions
  import opened Kinds
  import opened ConfigErrors
  import opened ValueTypes

  /**
   * The numeric coercions `cast.InterfaceToInt64` and `cast.InterfaceToFloat64`.
   * Their bodies are not part of this model, so the caster takes them as parameters.
   */
  datatype Coercions = Coercions(toInt: Value -> Option<Int64>, toFloat: Value -> Option<bv64>)

  /** The coercion CastValue applies for one kind of a union. */
  function Coerce(c: Coercions, v: Value, k: ValueKind): Option<Value>
  {
    match k
    case IntKind => (match c.toInt(v) case Some(i) => Some(Int(i)) case None => None)
    case FloatKind => (match c.toFloat(v) case Some(f) => Some(Float(f)) case None => None)
    case StringKind => if v.Str? then Some(v) else None
    case BoolKind => if v.Bool? then Some(v) else None
  }

  /** The position of a kind in the cast priority. */
  function Rank(k: ValueKind): (n: nat)
    ensures n < |CastPriority| && CastPriority[n] == k
  {
    match k
    case IntKind => 0
    case FloatKind => 1
    case StringKind => 2
    case BoolKind => 3
  }

  function PrimitiveOf(k: ValueKind): PrimitiveType
  {
    match k
    case IntKind => PrimInt
    case FloatKind => PrimFloat
    case StringKind => PrimString
    case BoolKind => PrimBool
  }

  function Primitives(ks: seq<ValueKind>): seq<PrimitiveType>
  {
    seq(|ks|, i requires 0 <= i < |ks| => PrimitiveOf(ks[i]))
  }

  /**
   * The kinds of a split union that CastValue tries, in the order it tries
   * them: exactly the named kinds, in priority order, each once.
   */
  function TriedKinds(validTypes: seq<string>): seq<ValueKind>
  {
    (if "INT" in validTypes then [IntKind] else [])
    + (if "FLOAT" in validTypes then [FloatKind] else [])
    + (if "STRING" in validTypes then [StringKind] else [])
    + (if "BOOL" in validTypes then [BoolKind] else [])
  }

  lemma TriedKindsInPriorityOrder(validTypes: seq<string>)
    ensures forall k :: k in TriedKinds(validTypes) <==> ValueKindName(k) in validTypes
    ensures forall i, j :: 0 <= i < j < |TriedKinds(validTypes)| ==>
      Rank(TriedKinds(validTypes)[i]) < Rank(TriedKinds(validTypes)[j])
  {
  }

  /**
   * The union branch of CastValue (validators.go:262-292): the four tests in
   * priority order. Each test records its kind in `validTypeNames`; when all of
   * them reject the value, those are the kinds the error lists.
   */
  function CastUnion(c: Coercions, v: Value, validTypes: seq<string>): (r: Result<Value>)
    // it succeeds iff some kind of the union accepts the value
    ensures r.Ok? <==> exists k :: ValueKindName(k) in validTypes && Coerce(c, v, k).Some?
    // and then it is the coercion of the highest-priority such kind
    ensures r.Ok? ==>
      exists k ::
        && ValueKindName(k) in validTypes && Coerce(c, v, k) == Some(r.value)
        && (forall k' :: ValueKindName(k') in validTypes && Rank(k') < Rank(k) ==> Coerce(c, v, k').None?)
    // otherwise the error lists the union's kinds in the order they were tried
    ensures r.Err? ==> r.error == Raise(InvalidPrimitiveType(Primitives(TriedKinds(validTypes))))
  {
    if "INT" in validTypes && c.toInt(v).Some? then
      assert Coerce(c, v, IntKind).Some?;
      Ok(Int(c.toInt(v).value))
    else if "FLOAT" in validTypes && c.toFloat(v).Some? then
      assert Coerce(c, v, FloatKind).Some?;
      Ok(Float(c.toFloat(v).value))
    else if "STRING" in validTypes && v.Str? then
      assert Coerce(c, v, StringKind).Some?;
      Ok(v)
    else if "BOOL" in validTypes && v.Bool? then
      assert Coerce(c, v, BoolKind).Some?;
      Ok(v)
    else
      Err(Raise(InvalidPrimitiveType(Primitives(TriedKinds(validTypes)))))
  }

  /** The kind of highest priority that accepts the value is the one CastUnion picks. */
  lemma CastUnionPicks(c: Coercions, v: Value, validTypes: seq<string>, k: ValueKind)
    requires ValueKindName(k) in validTypes && Coerce(c, v, k).Some?
    requires forall k' :: ValueKindName(k') in validTypes && Rank(k') < Rank(k) ==> Coerce(c, v, k').None?
    ensures CastUnion(c, v, validTypes) == Ok(Coerce(c, v, k).value)
  {
    var r := CastUnion(c, v, validTypes);
    var k0 :| ValueKindName(k0) in validTypes && Coerce(c, v, k0) == Some(r.value) &&
      (forall k' :: ValueKindName(k') in validTypes && Rank(k') < Rank(k0) ==> Coerce(c, v, k').None?);
    assert Rank(k0) == Rank(k);
  }

  /**
   * The order a union is written in does not matter: unions naming the same
   * kinds cast every value alike.
   */
  lemma CastUnionIgnoresOrder(c: Coercions, v: Value, u1: seq<string>, u2: seq<string>)
    requires forall k :: ValueKindName(k) in u1 <==> ValueKindName(k) in u2
    ensures CastUnion(c, v, u1) == CastUnion(c, v, u2)
  {
    assert TriedKinds(u1) == TriedKinds(u2) by {
      assert ValueKindName(IntKind) == "INT" && ValueKindName(FloatKind) == "FLOAT";
      assert ValueKindName(StringKind) == "STRING" && ValueKindName(BoolKind) == "BOOL";
    }
  }

  /**
   * CastValue (validators.go:248-378): validate the type, accept the value
   * (ValidateValue is a no-op), map null to null, then cast by the type's shape.
   */
  ghost function CastValue(c: Coercions, value: Value, t: Value): (r: Result<Value>)
    decreases t, 3
    // an invalid type is reported before the value is looked at
    ensures !ValidType(t) ==> r == Err(ValidateValueType(t).error)
    // null casts to null under every valid type
    ensures ValidType(t) && value.Null? ==> r == Ok(Null)
  {
    match ValidateValueType(t)
    case Fail(e) => Err(e)
    case Pass =>
      match ValidateValue(value)
      case Fail(e) => Err(e)
      case Pass =>
        if value.Null? then Ok(Null)
        else if t.Str? then CastUnion(c, value, Split(t.s))
        else if t.Map? then CastMap(c, value, t)
        else CastList(c, value, t)
  }

  /** The map branch of CastValue (validators.go:295-358). */
  ghost function CastMap(c: Coercions, value: Value, t: Value): (r: Result<Value>)
    requires ValidType(t) && t.Map? && !value.Null?
    decreases t, 2
    ensures !value.Map? ==> r == Err(Raise(InvalidPrimitiveType([PrimMap])))
    ensures value.Map? && |t.entries| == 0 ==>
      r == if |value.entries| == 0 then Ok(Map(map[])) else Err(Raise(MustBeEmpty).Wrap(Key(value)))
  {
    if !value.Map? then
      Err(Raise(InvalidPrimitiveType([PrimMap])))
    else if |t.entries| == 0 then
      if |value.entries| == 0 then Ok(Map(map[])) else Err(Raise(MustBeEmpty).Wrap(Key(value)))
    else if IsGenericMapType(t.entries) then
      CastGenericMap(c, value.entries, t)
    else
      CastFixedMap(c, value.entries, t)
  }

  /**
   * A generic map type {K: V}: every data key is cast against K and every data
   * value against V (validators.go:323-337). Keys that cast to the same key
   * collide; which value survives then depends on the iteration order.
   */
  ghost function CastGenericMap(c: Coercions, data: map<Value, Value>, t: Value): (r: Result<Value>)
    requires ValidType(t) && t.Map? && IsGenericMapType(t.entries)
    decreases t, 1
    ensures r.Ok? <==>
      forall dk :: dk in data ==>
        CastValue(c, dk, GenericKeyOf(t.entries)).Ok? &&
        CastValue(c, data[dk], t.entries[GenericKeyOf(t.entries)]).Ok?
    ensures r.Err? ==>
      exists dk :: dk in data && (
        || CastValue(c, dk, GenericKeyOf(t.entries)) == Err(r.error)
        || (&& CastValue(c, dk, GenericKeyOf(t.entries)).Ok?
            && CastValue(c, data[dk], t.entries[GenericKeyOf(t.entries)]).Err?
            && r.error == CastValue(c, data[dk], t.entries[GenericKeyOf(t.entries)]).error.Wrap(Key(dk))))
    ensures r.Ok? ==> r.value.Map?
    ensures r.Ok? ==>
      forall dk :: dk in data ==> CastValue(c, dk, GenericKeyOf(t.entries)).value in r.value.entries
    ensures r.Ok? ==>
      forall ck :: ck in r.value.entries ==>
        exists dk :: dk in data && CastValue(c, dk, GenericKeyOf(t.entries)) == Ok(ck) &&
          CastValue(c, data[dk], t.entries[GenericKeyOf(t.entries)]) == Ok(r.value.entries[ck])
  {
    var keyType := GenericKeyOf(t.entries);
    var valueType := t.entries[keyType];
    if exists dk :: dk in data && (CastValue(c, dk, keyType).Err? || CastValue(c, data[dk], valueType).Err?) then
      var dk :| dk in data && (CastValue(c, dk, keyType).Err? || CastValue(c, data[dk], valueType).Err?);
      if CastValue(c, dk, keyType).Err? then
        CastValue(c, dk, keyType)
      else
        Err(CastValue(c, data[dk], valueType).error.Wrap(Key(dk)))
    else
      var castKeys := set dk | dk in data :: CastValue(c, dk, keyType).value;
      Ok(Map(map ck | ck in castKeys ::
        var dk :| dk in data && CastValue(c, dk, keyType) == Ok(ck);
        CastValue(c, data[dk], valueType).value))
  }

  /**
   * A fixed map type: every field must be present and cast, and no other key
   * may appear (validators.go:339-357). The result keeps the field names.
   */
  ghost function CastFixedMap(c: Coercions, data: map<Value, Value>, t: Value): (r: Result<Value>)
    requires t.Map? && |t.entries| > 0 && !IsGenericMapType(t.entries)
    decreases t, 1
    // it succeeds iff every field is present and casts, and no other key is present
    ensures r.Ok? <==>
      && (forall k :: k in t.entries ==> k in data && CastValue(c, data[k], t.entries[k]).Ok?)
      && (forall dk :: dk in data ==> dk in t.entries)
    // and then the result has the same keys, each mapped to the cast of its value
    ensures r.Ok? ==>
      && r.value.Map?
      && (forall k :: k in r.value.entries <==> k in t.entries)
      && (forall k :: k in t.entries ==> CastValue(c, data[k], t.entries[k]) == Ok(r.value.entries[k]))
  {
    var fields := t.entries;
    if exists k :: k in fields && (k !in data || CastValue(c, data[k], fields[k]).Err?) then
      var k :| k in fields && (k !in data || CastValue(c, data[k], fields[k]).Err?);
      if k !in data then Err(Raise(MustBeDefined).Wrap(Key(k)))
      else Err(CastValue(c, data[k], fields[k]).error.Wrap(Key(k)))
    else if exists dk :: dk in data && dk !in fields then
      var dk :| dk in data && dk !in fields;
      Err(Raise(UnsupportedKey(dk)))
    else
      Ok(Map(map k | k in fields :: CastValue(c, data[k], fields[k]).value))
  }

  /**
   * A fixed-map cast fails with MustBeDefined under a missing field, or with a
   * field's own error under that field; only when every field is present and
   * casts does an extra data key fail, with UnsupportedKey.
   */
  lemma CastFixedMapError(c: Coercions, data: map<Value, Value>, t: Value)
    requires t.Map? && |t.entries| > 0 && !IsGenericMapType(t.entries)
    requires CastFixedMap(c, data, t).Err?
    ensures var e := CastFixedMap(c, data, t).error;
      || (exists k :: k in t.entries && k !in data && e == Raise(MustBeDefined).Wrap(Key(k)))
      || (exists k :: k in t.entries && k in data && CastValue(c, data[k], t.entries[k]).Err? &&
            e == CastValue(c, data[k], t.entries[k]).error.Wrap(Key(k)))
      || (&& (forall k :: k in t.entries ==> k in data && CastValue(c, data[k], t.entries[k]).Ok?)
          && exists dk :: dk in data && dk !in t.entries && e == Raise(UnsupportedKey(dk)))
  {
  }

  /** The list branch of CastValue (validators.go:360-375). */
  ghost function CastList(c: Coercions, value: Value, t: Value): (r: Result<Value>)
    requires ValidType(t) && t.List? && !value.Null?
    decreases t, 2
    ensures !value.List? ==> r == Err(Raise(InvalidPrimitiveType([PrimList])))
    ensures value.List? ==>
      r == match CastItems(c, value.items, t.items[0]) case Ok(xs) => Ok(List(xs)) case Err(e) => Err(e)
  {
    // a valid list type holds exactly one union string, the element type
    var elementType := t.items[0];
    if !value.List? then
      Err(Raise(InvalidPrimitiveType([PrimList])))
    else
      match CastItems(c, value.items, elementType)
      case Ok(xs) => Ok(List(xs))
      case Err(e) => Err(e)
  }

  /**
   * The element loop of the list branch (validators.go:366-373), over the
   * elements in order; CastItemsElementwise states what it computes.
   */
  ghost function CastItems(c: Coercions, items: seq<Value>, elementType: Value): (r: Result<seq<Value>>)
    decreases elementType, 4, |items|
    ensures r.Ok? ==> |r.value| == |items|
  {
    if items == [] then Ok([])
    else
      var last := |items| - 1;
      match CastItems(c, items[..last], elementType)
      case Err(e) => Err(e)
      case Ok(done) =>
        match CastValue(c, items[last], elementType)
        case Err(e) => Err(e.Wrap(Index(last)))
        case Ok(x) => Ok(done + [x])
  }

  /** A list casts iff every element does. */
  lemma {:induction false} CastItemsSucceeds(c: Coercions, items: seq<Value>, elementType: Value)
    ensures CastItems(c, items, elementType).Ok? <==>
      forall i :: 0 <= i < |items| ==> CastValue(c, items[i], elementType).Ok?
    decreases |items|
  {
    if items != [] {
      var last := |items| - 1;
      var prefix := items[..last];
      CastItemsSucceeds(c, prefix, elementType);
      assert forall i :: 0 <= i < last ==> prefix[i] == items[i];
    }
  }

  /** Element i of a cast list is the cast of element i. */
  lemma {:induction false} CastItemsElementwise(c: Coercions, items: seq<Value>, elementType: Value)
    requires CastItems(c, items, elementType).Ok?
    ensures forall i :: 0 <= i < |items| ==>
      CastValue(c, items[i], elementType) == Ok(CastItems(c, items, elementType).value[i])
    decreases |items|
  {
    if items != [] {
      var last := |items| - 1;
      var prefix := items[..last];
      CastItemsElementwise(c, prefix, elementType);
      var done := CastItems(c, prefix, elementType).value;
      var casted := CastItems(c, items, elementType).value;
      assert casted == done + [CastValue(c, items[last], elementType).value];
      assert forall i :: 0 <= i < last ==> prefix[i] == items[i] && casted[i] == done[i];
    }
  }

  /** A list that does not cast is reported under the index of its first element that does not. */
  lemma {:induction false} CastItemsFirstError(c: Coercions, items: seq<Value>, elementType: Value)
    requires CastItems(c, items, elementType).Err?
    ensures
      exists i :: 0 <= i < |items| && CastValue(c, items[i], elementType).Err? &&
        (forall j :: 0 <= j < i ==> CastValue(c, items[j], elementType).Ok?) &&
        CastItems(c, items, elementType).error == CastValue(c, items[i], elementType).error.Wrap(Index(i))
    decreases |items|
  {
    var last := |items| - 1;
    var prefix := items[..last];
    assert forall i :: 0 <= i < last ==> prefix[i] == items[i];
    if CastItems(c, prefix, elementType).Err? {
      CastItemsFirstError(c, prefix, elementType);
      var i :| 0 <= i < last && CastValue(c, prefix[i], elementType).Err? &&
        (forall j :: 0 <= j < i ==> CastValue(c, prefix[j], elementType).Ok?) &&
        CastItems(c, prefix, elementType).error == CastValue(c, prefix[i], elementType).error.Wrap(Index(i));
    } else {
      CastItemsSucceeds(c, prefix, elementType);
      assert CastValue(c, items[last], elementType).Err?;
    }
  }

}
