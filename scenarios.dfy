/**
 * Worked examples of the engine on concrete documents. The numeric coercions
 * are left open except for the values each example needs.
 */
module Scenarios {
  import opened Wrappers
  import opened Values
  import opened Unions
  import opened Kinds
  import opened ConfigErrors
  import opened ValueTypes
  import opened Cast
  import opened RuntimeTypes

  /** The literal unions of the examples split into the kind names they spell. */
  lemma SplitIntString()
    ensures Split("INT|STRING") == ["INT", "STRING"]
  {
    SplitJoin(["INT", "STRING"]);
    assert Join(["INT", "STRING"]) == "INT|STRING";
  }

  lemma SplitIntFloat()
    ensures Split("INT|FLOAT") == ["INT", "FLOAT"]
  {
    SplitJoin(["INT", "FLOAT"]);
    assert Join(["INT", "FLOAT"]) == "INT|FLOAT";
  }

  lemma SplitSingle(s: string)
    requires Pipe !in s
    ensures Split(s) == [s]
  {
    SplitJoin([s]);
  }

  lemma SplitIntFloatBogus()
    ensures Split("INT|FLOAT|BOGUS") == ["INT", "FLOAT", "BOGUS"]
  {
    SplitJoin(["INT", "FLOAT", "BOGUS"]);
    assert Join(["INT", "FLOAT", "BOGUS"]) == "INT|FLOAT|BOGUS";
  }

  /**
   * A union spelled like "INT|FLOAT|BOGUS" (SplitIntFloatBogus) names an unknown
   * kind, so it is not a value type.
   */
  lemma UnknownKindIsRejected(union: string)
    requires Split(union) == ["INT", "FLOAT", "BOGUS"]
    ensures ValidateValueType(Str(union)) == Fail(Raise(InvalidValueDataType))
  {
    assert "BOGUS" in Split(union) && "BOGUS" !in ValueTypeStrings;
  }

  /** Under a valid union a non-null value is cast by trying the union's kinds. */
  lemma UnionCast(c: Coercions, v: Value, s: string, parts: seq<string>)
    requires ValidType(Str(s)) && Split(s) == parts && !v.Null?
    ensures CastValue(c, v, Str(s)) == CastUnion(c, v, parts)
  {
  }

  /** A numeric-looking string cast against "INT|STRING" becomes an integer: INT is tried first. */
  lemma IntBeatsString(c: Coercions)
    requires c.toInt(Str("5")) == Some(5)
    ensures CastValue(c, Str("5"), Str("INT|STRING")) == Ok(Int(5))
  {
    SplitIntString();
  }

  /** Under ["INT", "STRING"] a value the int coercion rejects is cast as a string. */
  lemma IntStringFallback(c: Coercions, v: Value)
    requires Coerce(c, v, IntKind).None? && Coerce(c, v, StringKind).Some?
    ensures CastUnion(c, v, ["INT", "STRING"]) == Ok(Coerce(c, v, StringKind).value)
  {
    var validTypes := ["INT", "STRING"];
    forall k | ValueKindName(k) in validTypes && Rank(k) < Rank(StringKind)
      ensures Coerce(c, v, k).None?
    {
      assert k == IntKind;
    }
    CastUnionPicks(c, v, validTypes, StringKind);
  }

  /**
   * Under a union spelled like "INT|STRING", a string the int coercion rejects
   * falls through to STRING and is kept as it is.
   */
  lemma StringFallsThrough(c: Coercions, v: Value, union: string)
    requires Split(union) == ["INT", "STRING"]
    requires v.Str? && c.toInt(v).None?
    ensures CastValue(c, v, Str(union)) == Ok(v)
  {
    assert ValidType(Str(union));
    UnionCast(c, v, union, ["INT", "STRING"]);
    IntStringFallback(c, v);
  }

  /** Two strings the int coercion accepts, against the list type ["INT"], cast element by element. */
  lemma ListOfInts(c: Coercions, a: Value, b: Value, x: Int64, y: Int64)
    requires a.Str? && b.Str? && c.toInt(a) == Some(x) && c.toInt(b) == Some(y)
    ensures CastValue(c, List([a, b]), List([Str("INT")])) == Ok(List([Int(x), Int(y)]))
  {
    SplitSingle("INT");
    var items := [a, b];
    assert CastValue(c, items[0], Str("INT")) == Ok(Int(x));
    assert CastValue(c, items[1], Str("INT")) == Ok(Int(y));
    CastItemsSucceeds(c, items, Str("INT"));
    CastItemsElementwise(c, items, Str("INT"));
    var xs := CastItems(c, items, Str("INT")).value;
    assert xs == [Int(x), Int(y)];
  }

  /** When the only field a document fails on is a missing one, that field is the one reported. */
  lemma OnlyMissingField(c: Coercions, data: map<Value, Value>, t: Value, y: Value)
    requires ValidType(t) && t.Map? && |t.entries| > 1
    requires y in t.entries && y !in data && forall dk :: dk in data ==> dk in t.entries
    requires forall k :: k in t.entries && k != y ==> k in data && CastValue(c, data[k], t.entries[k]).Ok?
    ensures CastValue(c, Map(data), t) == Err(Raise(MustBeDefined).Wrap(Key(y)))
  {
    assert !IsGenericMapType(t.entries);
    CastFixedMapError(c, data, t);
  }

  /** A map of valid types none of whose keys is a union string is a valid fixed map type. */
  lemma FixedTypeValid(fields: map<Value, Value>)
    requires forall k :: k in fields ==> !IsGenericKey(k) && ValidType(fields[k])
    ensures ValidType(Map(fields))
  {
    ValidateValueTypeCases(Map(fields));
  }

  /** A pipe-free name that is not a kind name is not a union, so it is a plain field name. */
  lemma PlainFieldName(name: string)
    requires Pipe !in name && name !in ValueTypeStrings
    ensures !IsGenericKey(Str(name))
  {
    SplitSingle(name);
    assert name in Split(name);
  }

  /** A single kind name is a valid value type. */
  lemma KindNameIsType(k: ValueKind)
    ensures ValidType(Str(ValueKindName(k)))
  {
    ValueKindNamesRoundTrip(k);
    SplitSingle(ValueKindName(k));
  }

  /**
   * A document {x: "5"} against a fixed map type {x: "INT", y: "STRING"}, for
   * two distinct plain field names x and y, lacks field y.
   */
  lemma MissingField(c: Coercions, x: string, y: string, five: Value)
    requires x != y && Pipe !in x && Pipe !in y && x !in ValueTypeStrings && y !in ValueTypeStrings
    requires five.Str? && c.toInt(five).Some?
    ensures CastValue(c, Map(map[Str(x) := five]), Map(map[Str(x) := Str("INT"), Str(y) := Str("STRING")])) ==
      Err(Raise(MustBeDefined).Wrap(Key(Str(y))))
  {
    PlainFieldName(x);
    PlainFieldName(y);
    KindNameIsType(IntKind);
    KindNameIsType(StringKind);
    var fields := map[Str(x) := Str("INT"), Str(y) := Str("STRING")];
    FixedTypeValid(fields);
    assert |fields| == 2;
    OnlyMissingField(c, map[Str(x) := five], Map(fields), Str(y));
  }

  /** A runtime union spelled like "INT" fits a schema union spelled like "INT|FLOAT". */
  lemma RuntimeSubset(runtime: string, schema: string)
    requires Split(runtime) == ["INT"] && Split(schema) == ["INT", "FLOAT"]
    ensures ValidType(Str(schema)) && CheckValueRuntimeTypesMatch(Str(runtime), Str(schema)) == Pass
  {
    assert ValidType(Str(schema));
  }

  /** A runtime union spelled like "INT|STRING" does not fit a schema union spelled like "INT": STRING is not allowed. */
  lemma RuntimeSuperset(runtime: string, schema: string)
    requires Split(runtime) == ["INT", "STRING"] && Split(schema) == ["INT"]
    ensures ValidType(Str(schema)) && CheckValueRuntimeTypesMatch(Str(runtime), Str(schema)) == Fail(Raise(UnsupportedDataType))
  {
    assert "STRING" in Split(runtime) && "STRING" !in Split(schema);
    assert ValidType(Str(schema));
  }

}
