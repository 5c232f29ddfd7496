/**
 * The grammar of value types and its validation (`isValidValueType`,
 * `ValidateValueType`, `ValidateArgTypes`) and the no-op value hooks
 * (`ValidateValue`, `ValidateArgValues`).
 *
 * A value type is one of
 *   - a union string such as "INT|FLOAT";
 *   - a list holding exactly one union string (a list of that union);
 *   - a generic map, whose single key is a union string (the key kind) and whose
 *     value is the value type;
 *   - a fixed map, whose keys are literal field names, each mapped to a value type.
 */
module ValueTypes {
  import opened Wrappers
  import opened Values
  import opened Unions
  import opened Kinds
  import opened ConfigErrors

  /** A map key that is a union string makes its type map generic. */
  predicate IsGenericKey(k: Value)
  {
    k.Str? && ValidValueUnion(k.s)
  }

  ghost predicate HasGenericKey(m: map<Value, Value>)
  {
    exists k :: k in m && IsGenericKey(k)
  }

  /** The loop that sets `foundGenericKey` in ValidateValueType. */
  method FindGenericKey(m: map<Value, Value>) returns (found: bool)
    ensures found <==> HasGenericKey(m)
  {
    found := false;
    var unvisited := m.Keys;
    while unvisited != {}
      invariant unvisited <= m.Keys
      invariant forall k :: k in m && k !in unvisited ==> !IsGenericKey(k)
      decreases |unvisited|
    {
      var key :| key in unvisited;
      if IsGenericKey(key) {
        found := true;
        break;
      }
      unvisited := unvisited - {key};
    }
  }

  /**
   * ValidateValueType. Map entries are visited in Go's random order, so when
   * several entries are malformed the error reported is that of any one of them.
   */
  ghost function ValidateValueType(t: Value): (r: Outcome)
    decreases t
    // a valid type is a union string, a one-union list, or a map
    ensures r.Pass? ==>
      || (t.Str? && ValidValueUnion(t.s))
      || (t.List? && |t.items| == 1 && t.items[0].Str? && ValidValueUnion(t.items[0].s))
      || t.Map?
  {
    if t.Str? then
      if ValidValueUnion(t.s) then Pass else Fail(Raise(InvalidValueDataType))
    else if AsStrSlice(t).Some? then
      var parts := AsStrSlice(t).value;
      if |parts| != 1 then Fail(Raise(TypeListLength))
      else if !ValidValueUnion(parts[0]) then Fail(Raise(InvalidValueDataType))
      else Pass
    else if t.Map? then
      var m := t.entries;
      var foundGenericKey := HasGenericKey(m);
      if foundGenericKey && |m| != 1 then
        Fail(Raise(GenericTypeMapLength))
      else if exists k :: k in m && ValidateValueType(m[k]).Fail? then
        // A generic map reaching this point has one entry, whose key is a union
        // string: the check of the key (validators.go:217-222) always passes.
        var k :| k in m && ValidateValueType(m[k]).Fail?;
        Fail(ValidateValueType(m[k]).error.Wrap(Key(k)))
      else
        Pass
    else
      Fail(Raise(InvalidValueDataType))
  }

  /** What ValidateValueType decides, shape by shape. */
  lemma ValidateValueTypeCases(t: Value)
    // a union string is valid iff every part is a value-kind name
    ensures t.Str? ==>
      (ValidType(t) <==> forall part :: part in Split(t.s) ==> part in ValueTypeStrings)
    ensures t.Str? && !ValidType(t) ==> ValidateValueType(t) == Fail(Raise(InvalidValueDataType))
    // a list of strings must have exactly one element, itself a valid union
    ensures AsStrSlice(t).Some? && |AsStrSlice(t).value| != 1 ==>
      ValidateValueType(t) == Fail(Raise(TypeListLength))
    ensures t.List? && |t.items| == 1 && t.items[0].Str? ==>
      ValidateValueType(t) == if ValidValueUnion(t.items[0].s) then Pass else Fail(Raise(InvalidValueDataType))
    // a map with a union key must have exactly one entry
    ensures t.Map? && HasGenericKey(t.entries) && |t.entries| != 1 ==>
      ValidateValueType(t) == Fail(Raise(GenericTypeMapLength))
    // otherwise a map is valid iff all its values are, and an error is a value's error under its key
    ensures t.Map? && !(HasGenericKey(t.entries) && |t.entries| != 1) ==>
      (ValidType(t) <==> forall k :: k in t.entries ==> ValidType(t.entries[k]))
    ensures t.Map? && !(HasGenericKey(t.entries) && |t.entries| != 1) && !ValidType(t) ==>
      exists k :: k in t.entries && !ValidType(t.entries[k]) &&
        ValidateValueType(t).error == ValidateValueType(t.entries[k]).error.Wrap(Key(k))
    // nothing else is a type
    ensures !t.Str? && !t.Map? && AsStrSlice(t).None? ==> ValidateValueType(t) == Fail(Raise(InvalidValueDataType))
  {
  }

  /** The values of a valid type map are valid types. */
  lemma ValidMapValues(t: Value)
    requires ValidType(t) && t.Map?
    ensures forall k :: k in t.entries ==> ValidType(t.entries[k])
  {
    ValidateValueTypeCases(t);
  }

  /** The key of a generic type map is a union string, which validates by itself. */
  lemma GenericKeyValidates(k: Value)
    requires IsGenericKey(k)
    ensures ValidateValueType(k).Pass?
  {
  }

  /**
   * The shape CastValue and CheckValueRuntimeTypesMatch treat as a generic map
   * type: one entry, keyed by a union string.
   */
  ghost predicate IsGenericMapType(m: map<Value, Value>)
  {
    |m| == 1 && HasGenericKey(m)
  }

  /**
   * On a valid type map, the generic test of casting and matching
   * (IsGenericMapType) agrees with validation's foundGenericKey test.
   */
  lemma GenericTestsAgree(m: map<Value, Value>)
    requires ValidType(Map(m))
    ensures HasGenericKey(m) <==> IsGenericMapType(m)
  {
    ValidateValueTypeCases(Map(m));
  }

  /** The single key of a one-entry map is its only key. */
  lemma SingleKey(m: map<Value, Value>, k1: Value, k2: Value)
    requires |m| == 1 && k1 in m && k2 in m
    ensures k1 == k2
  {
    if k1 != k2 {
      assert {k1, k2} <= m.Keys;
      assert |{k1, k2}| == 2;
      SubsetCard({k1, k2}, m.Keys);
    }
  }

  lemma {:induction false} SubsetCard(a: set<Value>, b: set<Value>)
    requires a <= b
    ensures |a| <= |b|
    decreases |a|
  {
    if a != {} {
      var x :| x in a;
      SubsetCard(a - {x}, b - {x});
    }
  }

  /** A value type that passes validation. */
  ghost predicate ValidType(t: Value)
  {
    ValidateValueType(t).Pass?
  }

  /** The single key of a valid generic type map. */
  ghost function GenericKeyOf(m: map<Value, Value>): (k: Value)
    requires HasGenericKey(m)
    ensures k in m && IsGenericKey(k)
  {
    var k :| k in m && IsGenericKey(k); k
  }

  /**
   * ValidateArgTypes: no argument is named like a type, and every argument's
   * type is valid; a type error is wrapped with the argument name.
   */
  ghost function ValidateArgTypes(argTypes: map<string, Value>): (r: Outcome)
    ensures r.Pass? <==> forall name :: name in argTypes ==> !ValidValueUnion(name) && ValidType(argTypes[name])
    ensures r.Fail? ==>
      exists name :: name in argTypes && (
        if ValidValueUnion(name) then r.error == Raise(ArgNameCannotBeType(name))
        else (ValidateValueType(argTypes[name]).Fail? &&
              r.error == ValidateValueType(argTypes[name]).error.Wrap(Name(name))))
  {
    if exists name :: name in argTypes && (ValidValueUnion(name) || ValidateValueType(argTypes[name]).Fail?) then
      var name :| name in argTypes && (ValidValueUnion(name) || ValidateValueType(argTypes[name]).Fail?);
      if ValidValueUnion(name) then Fail(Raise(ArgNameCannotBeType(name)))
      else Fail(ValidateValueType(argTypes[name]).error.Wrap(Name(name)))
    else
      Pass
  }

  /** ValidateValue: the hook for checks on literal values; it accepts everything. */
  function ValidateValue(value: Value): (r: Outcome)
    ensures r == Pass
  {
    Pass
  }

  /**
   * ValidateArgValues applies ValidateValue to every argument and wraps its
   * error with the argument name; as that hook never fails, neither does this.
   */
  function ValidateArgValues(argValues: map<string, Value>): (r: Outcome)
    ensures r == Pass
    ensures forall name :: name in argValues ==> ValidateValue(argValues[name]) == r
  {
    Pass
  }

}
